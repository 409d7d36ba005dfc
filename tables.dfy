/** What each statement does to one table bucket, as the writes and deletes it
    issues, and the shape every bucket written by this program keeps. */
module Tables {
  import opened Wrappers
  import opened GoStrings
  import opened Bolt
  import opened Keys

  /** The name a column definition declares: its first word. None when the
      definition is blank, where taking the first word panics. */
  function ColumnName(definition: string): (r: Option<string>)
    ensures r.None? <==> AllSpace(definition)
    ensures r.Some? ==> r.value != [] && NoSpace(r.value)
    ensures r.Some? ==> exists i :: WordAt(definition, r.value, i)
  {
    var words := Fields(TrimSpace(definition));
    if words == [] then None
    else
      FirstFieldAt(definition);
      Some(words[0])
  }

  /** The schema write of one non-blank definition: "col:<name>" holds the
      definition as written. */
  function SchemaEntry(definition: string): Entry
    requires !AllSpace(definition)
  {
    Entry(SchemaKey(ColumnName(definition).value), definition)
  }

  /** The schema writes of CREATE TABLE, one per definition in order. A blank
      definition panics instead. */
  function SchemaEntries(definitions: seq<string>): (ws: seq<Entry>)
    requires !AnyBlank(definitions)
    ensures |ws| == |definitions|
    ensures forall i | 0 <= i < |definitions| ::
      ws[i] == SchemaEntry(definitions[i]) &&
      ws[i] == Entry(SchemaKey(ColumnName(definitions[i]).value), definitions[i])
  {
    seq(|definitions|, i requires 0 <= i < |definitions| => SchemaEntry(definitions[i]))
  }

  /** Every key CREATE TABLE writes is a schema key, and there is one for each
      declared name. */
  lemma SchemaEntriesKeys(definitions: seq<string>)
    requires !AnyBlank(definitions)
    ensures forall k | k in KeySet(SchemaEntries(definitions)) :: IsSchemaKey(k)
    ensures forall i | 0 <= i < |definitions| ::
      SchemaKey(ColumnName(definitions[i]).value) in KeySet(SchemaEntries(definitions))
  {
    var ws := SchemaEntries(definitions);
    forall k | k in KeySet(ws) ensures IsSchemaKey(k) {
      var i := KeySetIndex(ws, k);
      SchemaKeyRoundTrip(ColumnName(definitions[i]).value);
    }
    forall i | 0 <= i < |definitions| ensures SchemaKey(ColumnName(definitions[i]).value) in KeySet(ws) {
      KeySetHasIndex(ws, i);
    }
  }

  /** Some definition is blank. */
  predicate AnyBlank(definitions: seq<string>) {
    exists i | 0 <= i < |definitions| :: AllSpace(definitions[i])
  }

  lemma AnyBlankSnoc(ds: seq<string>)
    requires ds != []
    ensures AnyBlank(ds) <==> AnyBlank(ds[..|ds| - 1]) || AllSpace(ds[|ds| - 1])
  {
    var init := ds[..|ds| - 1];
    if AnyBlank(init) {
      var i :| 0 <= i < |init| && AllSpace(init[i]);
      assert AllSpace(ds[i]);
    }
    if AnyBlank(ds) && !AllSpace(ds[|ds| - 1]) {
      var i :| 0 <= i < |ds| && AllSpace(ds[i]);
      assert AllSpace(init[i]);
    }
  }

  /** The cell writes of INSERT for row id: "<id>:<column>" holds the value at the
      same position, both trimmed. None when there are fewer values than
      columns, where values[i] panics; extra values are ignored. */
  function CellWrites(id: nat, columns: seq<string>, values: seq<string>): (r: Option<seq<Entry>>)
    ensures r.None? <==> |values| < |columns|
    ensures r.Some? ==> |r.value| == |columns|
    ensures r.Some? ==> forall i | 0 <= i < |columns| ::
      r.value[i] == Entry(CellKey(Decimal(id), TrimSpace(columns[i])), TrimSpace(values[i]))
  {
    if |values| < |columns| then None
    else Some(seq(|columns|, i requires 0 <= i < |columns| =>
      Entry(CellKey(Decimal(id), TrimSpace(columns[i])), TrimSpace(values[i]))))
  }

  /** INSERT on an existing bucket: draw the next id, then write the cells. None
      on a panic, which rolls the id back with everything else. */
  function InsertRow(b: Bucket, columns: seq<string>, values: seq<string>): (r: Option<Bucket>)
    ensures r.None? <==> |values| < |columns|
    ensures r.Some? ==> r.value.sequence == b.sequence + 1
    ensures r.Some? ==> Contents(r.value) == Contents(b) + Overlay(CellWrites(b.sequence + 1, columns, values).value)
  {
    var (b1, id) := NextSequence(b);
    match CellWrites(id, columns, values)
    case None => None
    case Some(ws) => Some(PutAll(b1, ws))
  }

  /** A data key the UPDATE and DELETE loops act on: not a schema key, and its
      column (second ':'-separated part) is the condition text exactly. */
  predicate Hit(k: string, condition: string) {
    !IsSchemaKey(k) && Decodable(k) && ColumnOf(k) == condition
  }

  /** A data key those loops cannot take apart: parts[1] panics on it. */
  predicate Broken(k: string) {
    !IsSchemaKey(k) && !Decodable(k)
  }

  predicate AnyBroken(ks: seq<string>) {
    exists i | 0 <= i < |ks| :: Broken(ks[i])
  }

  /** The writes of the UPDATE loop over the snapshot ks: each hit key's row gets
      "<id>:<setColumn>" := setValue. None when a key panics. */
  function UpdateWrites(ks: seq<string>, setColumn: string, setValue: string, condition: string): (r: Option<seq<Entry>>)
    ensures r.None? <==> AnyBroken(ks)
    ensures r.Some? ==> forall j | 0 <= j < |r.value| :: r.value[j].value == setValue
    decreases |ks|
  {
    if ks == [] then Some([])
    else
      var init, k := ks[..|ks| - 1], ks[|ks| - 1];
      AnyBrokenSnoc(ks);
      match UpdateWrites(init, setColumn, setValue, condition)
      case None => None
      case Some(ws) =>
        if IsSchemaKey(k) then Some(ws)
        else if !Decodable(k) then None
        else if ColumnOf(k) == condition then Some(ws + [Entry(CellKey(RowIdOf(k), setColumn), setValue)])
        else Some(ws)
  }

  lemma AnyBrokenSnoc(ks: seq<string>)
    requires ks != []
    ensures AnyBroken(ks) <==> AnyBroken(ks[..|ks| - 1]) || Broken(ks[|ks| - 1])
  {
    var init := ks[..|ks| - 1];
    if AnyBroken(init) {
      var i :| 0 <= i < |init| && Broken(init[i]);
      assert Broken(ks[i]);
    }
    if AnyBroken(ks) && !Broken(ks[|ks| - 1]) {
      var i :| 0 <= i < |ks| && Broken(ks[i]);
      assert Broken(init[i]);
    }
  }

  /** The keys UPDATE writes: the row of every hit key, in setColumn. */
  function Targets(ks: seq<string>, setColumn: string, condition: string): set<string> {
    set i | 0 <= i < |ks| && Hit(ks[i], condition) :: CellKey(RowIdOf(ks[i]), setColumn)
  }

  /** UPDATE writes setValue under exactly the target keys. */
  lemma {:induction false} UpdateWritesOverlay(ks: seq<string>, setColumn: string, setValue: string, condition: string)
    requires UpdateWrites(ks, setColumn, setValue, condition).Some?
    ensures var ws := UpdateWrites(ks, setColumn, setValue, condition).value;
      Overlay(ws) == map k | k in Targets(ks, setColumn, condition) :: setValue
    decreases |ks|
  {
    if ks != [] {
      var init, k := ks[..|ks| - 1], ks[|ks| - 1];
      AnyBrokenSnoc(ks);
      UpdateWritesOverlay(init, setColumn, setValue, condition);
      TargetsSnoc(ks, setColumn, condition);
      var ws := UpdateWrites(init, setColumn, setValue, condition).value;
      if Hit(k, condition) {
        var w := Entry(CellKey(RowIdOf(k), setColumn), setValue);
        assert (ws + [w])[..|ws|] == ws;
      }
    }
  }

  lemma TargetsSnoc(ks: seq<string>, setColumn: string, condition: string)
    requires ks != []
    ensures var init, k := ks[..|ks| - 1], ks[|ks| - 1];
      Targets(ks, setColumn, condition) ==
        Targets(init, setColumn, condition) + (if Hit(k, condition) then {CellKey(RowIdOf(k), setColumn)} else {})
  {
    TargetsOfFront(ks, setColumn, condition);
    TargetsInFront(ks, setColumn, condition);
  }

  lemma TargetsOfFront(ks: seq<string>, setColumn: string, condition: string)
    requires ks != []
    ensures var init, k := ks[..|ks| - 1], ks[|ks| - 1];
      Targets(init, setColumn, condition) + (if Hit(k, condition) then {CellKey(RowIdOf(k), setColumn)} else {})
        <= Targets(ks, setColumn, condition)
  {
    var init, k := ks[..|ks| - 1], ks[|ks| - 1];
    forall t | t in Targets(init, setColumn, condition) ensures t in Targets(ks, setColumn, condition) {
      var i :| 0 <= i < |init| && Hit(init[i], condition) && t == CellKey(RowIdOf(init[i]), setColumn);
      assert ks[i] == init[i];
    }
    if Hit(k, condition) {
      assert CellKey(RowIdOf(ks[|ks| - 1]), setColumn) in Targets(ks, setColumn, condition);
    }
  }

  lemma TargetsInFront(ks: seq<string>, setColumn: string, condition: string)
    requires ks != []
    ensures var init, k := ks[..|ks| - 1], ks[|ks| - 1];
      Targets(ks, setColumn, condition)
        <= Targets(init, setColumn, condition) + (if Hit(k, condition) then {CellKey(RowIdOf(k), setColumn)} else {})
  {
    var init, k := ks[..|ks| - 1], ks[|ks| - 1];
    var extra := if Hit(k, condition) then {CellKey(RowIdOf(k), setColumn)} else {};
    forall t | t in Targets(ks, setColumn, condition) ensures t in Targets(init, setColumn, condition) + extra {
      var i :| 0 <= i < |ks| && Hit(ks[i], condition) && t == CellKey(RowIdOf(ks[i]), setColumn);
      if i < |init| {
        assert init[i] == ks[i];
        assert t in Targets(init, setColumn, condition);
      } else {
        assert t in extra;
      }
    }
  }

  /** UPDATE on an existing bucket: the target keys now hold setValue; nothing
      else changes, nothing is removed. None on a panic. */
  function UpdateRows(b: Bucket, setColumn: string, setValue: string, condition: string): (r: Option<Bucket>)
    ensures r.None? <==> AnyBroken(Snapshot(b.entries))
    ensures r.Some? ==>
      Contents(r.value) == Contents(b) + map k | k in Targets(Snapshot(b.entries), setColumn, condition) :: setValue
    ensures r.Some? ==> r.value.sequence == b.sequence
  {
    var ks := Snapshot(b.entries);
    match UpdateWrites(ks, setColumn, setValue, condition)
    case None => None
    case Some(ws) =>
      UpdateWritesOverlay(ks, setColumn, setValue, condition);
      Some(PutAll(b, ws))
  }

  /** The keys the DELETE loop over the snapshot ks removes: the hit keys. None
      when a key panics. */
  function DeleteKeys(ks: seq<string>, condition: string): (r: Option<seq<string>>)
    ensures r.None? <==> AnyBroken(ks)
    decreases |ks|
  {
    if ks == [] then Some([])
    else
      var init, k := ks[..|ks| - 1], ks[|ks| - 1];
      AnyBrokenSnoc(ks);
      match DeleteKeys(init, condition)
      case None => None
      case Some(ds) =>
        if IsSchemaKey(k) then Some(ds)
        else if !Decodable(k) then None
        else if ColumnOf(k) == condition then Some(ds + [k])
        else Some(ds)
  }

  /** The hit keys among ks. */
  function Hits(ks: seq<string>, condition: string): set<string> {
    set i | 0 <= i < |ks| && Hit(ks[i], condition) :: ks[i]
  }

  /** DELETE removes exactly the hit keys. */
  lemma {:induction false} DeleteKeysHits(ks: seq<string>, condition: string)
    requires DeleteKeys(ks, condition).Some?
    ensures Members(DeleteKeys(ks, condition).value) == Hits(ks, condition)
    decreases |ks|
  {
    if ks != [] {
      var init, k := ks[..|ks| - 1], ks[|ks| - 1];
      AnyBrokenSnoc(ks);
      DeleteKeysHits(init, condition);
      assert forall i | 0 <= i < |init| :: init[i] == ks[i];
      var ds := DeleteKeys(init, condition).value;
      if Hit(k, condition) {
        assert Members(ds + [k]) == Members(ds) + {k};
        assert Hits(ks, condition) == Hits(init, condition) + {k};
      } else {
        assert Hits(ks, condition) == Hits(init, condition);
      }
    }
  }

  /** DELETE on an existing bucket: the hit keys are gone, and only they, so the
      other cells of a matched row stay. None on a panic. */
  function DeleteRows(b: Bucket, condition: string): (r: Option<Bucket>)
    ensures r.None? <==> AnyBroken(Snapshot(b.entries))
    ensures r.Some? ==> Contents(r.value) == Contents(b) - Hits(Snapshot(b.entries), condition)
    ensures r.Some? ==> r.value.sequence == b.sequence
  {
    var ks := Snapshot(b.entries);
    match DeleteKeys(ks, condition)
    case None => None
    case Some(ds) =>
      DeleteKeysHits(ks, condition);
      Some(DeleteAll(b, ds))
  }

  /** A row id this bucket has handed out: the decimal form (digits, no leading
      zero) of a number in 1..sequence. These are exactly the strings Decimal(n)
      for 1 <= n <= sequence (IssuedIdIsDecimal). */
  predicate IssuedId(id: string, sequence: nat) {
    IsDecimal(id) && 1 <= DecimalValue(id) <= sequence
  }

  lemma IssuedIdIsDecimal(id: string, sequence: nat)
    ensures IssuedId(id, sequence) <==> exists n: nat | 1 <= n <= sequence :: id == Decimal(n)
  {
    if IssuedId(id, sequence) {
      DecimalOfValue(id);
    }
    if exists n: nat | 1 <= n <= sequence :: id == Decimal(n) {
      var n: nat :| 1 <= n <= sequence && id == Decimal(n);
      DecimalRoundTrip(n);
    }
  }

  /** The shape of a bucket written by this program: every key that is not a
      schema key is a cell key of an id the bucket has issued. */
  predicate WellFormed(b: Bucket) {
    forall k {:trigger KeyShape(k, b.sequence)} | k in Contents(b) :: KeyShape(k, b.sequence)
  }

  /** One key of such a bucket: a schema key, or a cell key of an issued id. */
  predicate KeyShape(k: string, sequence: nat) {
    !IsSchemaKey(k) ==> Decodable(k) && IssuedId(RowIdOf(k), sequence)
  }

  /** In a well-formed bucket no key is broken, so UPDATE and DELETE cannot panic. */
  lemma WellFormedHasNoBroken(b: Bucket)
    requires WellFormed(b)
    ensures !AnyBroken(Snapshot(b.entries))
  {
    var ks := Snapshot(b.entries);
    KeySetOfSnapshot(b.entries);
    forall i | 0 <= i < |ks| ensures !Broken(ks[i]) {
      assert ks[i] in Contents(b);
      assert KeyShape(ks[i], b.sequence);
    }
  }

  lemma EmptyWellFormed()
    ensures WellFormed(EmptyBucket)
  {
  }

  /** CREATE TABLE adds schema keys only, so the shape is kept. */
  lemma DefineColumnsWellFormed(b: Bucket, definitions: seq<string>)
    requires WellFormed(b) && !AnyBlank(definitions)
    ensures WellFormed(PutAll(b, SchemaEntries(definitions)))
  {
    var ws := SchemaEntries(definitions);
    var r := PutAll(b, ws);
    OverlayKeys(ws);
    SchemaEntriesKeys(definitions);
    forall k | k in Contents(r) ensures KeyShape(k, r.sequence) {
      if k !in KeySet(ws) {
        assert KeyShape(k, b.sequence);
      }
    }
  }

  /** The cell keys INSERT writes are keys of the new id. */
  lemma CellWritesKeys(id: nat, columns: seq<string>, values: seq<string>)
    requires CellWrites(id, columns, values).Some?
    ensures forall k | k in KeySet(CellWrites(id, columns, values).value) ::
      !IsSchemaKey(k) && Decodable(k) && RowIdOf(k) == Decimal(id)
  {
    var ws := CellWrites(id, columns, values).value;
    DigitsHaveNoColon(Decimal(id));
    forall k | k in KeySet(ws) ensures !IsSchemaKey(k) && Decodable(k) && RowIdOf(k) == Decimal(id) {
      var i := KeySetIndex(ws, k);
      var col := TrimSpace(columns[i]);
      CellKeyNotSchema(id, col);
      CellKeyParts(Decimal(id), col);
    }
  }

  /** An id the bucket issued is below the next one it draws. */
  lemma IssuedIsNotNext(id: string, sequence: nat)
    requires IssuedId(id, sequence)
    ensures IssuedId(id, sequence + 1) && id != Decimal(sequence + 1)
  {
    DecimalRoundTrip(sequence + 1);
  }

  /** The id INSERT draws is one the bucket has then issued. */
  lemma NextIsIssued(sequence: nat)
    ensures IssuedId(Decimal(sequence + 1), sequence + 1)
  {
    DecimalRoundTrip(sequence + 1);
  }

  /** INSERT keeps the shape: its cells belong to the id it just drew. */
  lemma InsertRowWellFormed(b: Bucket, columns: seq<string>, values: seq<string>)
    requires WellFormed(b) && InsertRow(b, columns, values).Some?
    ensures WellFormed(InsertRow(b, columns, values).value)
  {
    NewKeysHaveShape(b.sequence + 1, columns, values);
    ShapeOfUnion(b, Overlay(CellWrites(b.sequence + 1, columns, values).value), InsertRow(b, columns, values).value);
  }

  /** Every key INSERT writes is a cell key of the id it draws. */
  lemma NewKeysHaveShape(id: nat, columns: seq<string>, values: seq<string>)
    requires 1 <= id && CellWrites(id, columns, values).Some?
    ensures forall k | k in Overlay(CellWrites(id, columns, values).value) :: KeyShape(k, id)
  {
    var ws := CellWrites(id, columns, values).value;
    OverlayKeys(ws);
    CellWritesKeys(id, columns, values);
    NextIsIssued(id - 1);
    forall k | k in Overlay(ws) ensures KeyShape(k, id) {
      assert k in KeySet(ws);
    }
  }

  /** Writing keys of the right shape into a well-formed bucket while the
      counter goes up by one keeps it well-formed. */
  lemma ShapeOfUnion(b: Bucket, written: map<string, string>, r: Bucket)
    requires WellFormed(b) && Contents(r) == Contents(b) + written && r.sequence == b.sequence + 1
    requires forall k | k in written :: KeyShape(k, r.sequence)
    ensures WellFormed(r)
  {
    forall k | k in Contents(r) ensures KeyShape(k, r.sequence) {
      if k !in written {
        OldKeyKeepsShape(b, k);
      }
    }
  }

  /** A key of a well-formed bucket keeps its shape once the counter goes up. */
  lemma OldKeyKeepsShape(b: Bucket, k: string)
    requires WellFormed(b) && k in Contents(b)
    ensures KeyShape(k, b.sequence + 1)
  {
    assert KeyShape(k, b.sequence);
    if !IsSchemaKey(k) {
      IssuedIsNotNext(RowIdOf(k), b.sequence);
    }
  }

  /** INSERT never overwrites: on a well-formed bucket every key it writes is new,
      because the id it draws was never issued before. */
  lemma InsertIsFresh(b: Bucket, columns: seq<string>, values: seq<string>, k: string)
    requires WellFormed(b) && CellWrites(b.sequence + 1, columns, values).Some?
    requires k in Contents(b)
    ensures k !in Overlay(CellWrites(b.sequence + 1, columns, values).value)
  {
    var ws := CellWrites(b.sequence + 1, columns, values).value;
    OverlayKeys(ws);
    if k in KeySet(ws) {
      CellWritesKeys(b.sequence + 1, columns, values);
      NotNextId(b, k);
      assert false;
    }
  }

  /** A data key of a well-formed bucket never carries the id drawn next. */
  lemma NotNextId(b: Bucket, k: string)
    requires WellFormed(b) && k in Contents(b) && !IsSchemaKey(k)
    ensures Decodable(k) && RowIdOf(k) != Decimal(b.sequence + 1)
  {
    assert KeyShape(k, b.sequence);
    IssuedIsNotNext(RowIdOf(k), b.sequence);
  }

  /** So INSERT leaves every existing pair as it was. */
  lemma InsertKeepsExisting(b: Bucket, columns: seq<string>, values: seq<string>, k: string)
    requires WellFormed(b) && InsertRow(b, columns, values).Some? && k in Contents(b)
    ensures k in Contents(InsertRow(b, columns, values).value)
    ensures Contents(InsertRow(b, columns, values).value)[k] == Contents(b)[k]
  {
    InsertIsFresh(b, columns, values, k);
    InsertKeepsUnwritten(b, columns, values, k);
  }

  /** A pair INSERT does not write stays as it was. */
  lemma InsertKeepsUnwritten(b: Bucket, columns: seq<string>, values: seq<string>, k: string)
    requires InsertRow(b, columns, values).Some? && k in Contents(b)
    requires k !in Overlay(CellWrites(b.sequence + 1, columns, values).value)
    ensures k in Contents(InsertRow(b, columns, values).value)
    ensures Contents(InsertRow(b, columns, values).value)[k] == Contents(b)[k]
  {
  }

  /** UPDATE keeps the shape: it writes only into rows that already exist. */
  lemma UpdateRowsWellFormed(b: Bucket, setColumn: string, setValue: string, condition: string)
    requires WellFormed(b) && UpdateRows(b, setColumn, setValue, condition).Some?
    ensures WellFormed(UpdateRows(b, setColumn, setValue, condition).value)
  {
    var r := UpdateRows(b, setColumn, setValue, condition).value;
    var ks := Snapshot(b.entries);
    KeySetOfSnapshot(b.entries);
    forall k | k in Contents(r) ensures KeyShape(k, r.sequence) {
      if k in Targets(ks, setColumn, condition) {
        var i :| 0 <= i < |ks| && Hit(ks[i], condition) && k == CellKey(RowIdOf(ks[i]), setColumn);
        assert ks[i] in Contents(b);
        assert KeyShape(ks[i], b.sequence);
        DecodableShape(ks[i]);
        CellKeyParts(RowIdOf(ks[i]), setColumn);
      } else {
        assert KeyShape(k, b.sequence);
      }
    }
  }

  /** UPDATE never writes a schema key and never removes a key. */
  lemma UpdateKeepsSchema(b: Bucket, setColumn: string, setValue: string, condition: string, k: string)
    requires UpdateRows(b, setColumn, setValue, condition).Some?
    ensures var r := UpdateRows(b, setColumn, setValue, condition).value;
      (k in Contents(b) ==> k in Contents(r))
      && (IsSchemaKey(k) ==> (k in Contents(r) <==> k in Contents(b)))
      && (IsSchemaKey(k) && k in Contents(b) ==> Contents(r)[k] == Contents(b)[k])
  {
    TargetsNotSchema(Snapshot(b.entries), setColumn, condition);
  }

  /** UPDATE writes into rows, never into the schema. */
  lemma TargetsNotSchema(ks: seq<string>, setColumn: string, condition: string)
    ensures forall t | t in Targets(ks, setColumn, condition) :: !IsSchemaKey(t)
  {
    forall t | t in Targets(ks, setColumn, condition) ensures !IsSchemaKey(t) {
      var i :| 0 <= i < |ks| && Hit(ks[i], condition) && t == CellKey(RowIdOf(ks[i]), setColumn);
      RowKeyNotSchema(ks[i], setColumn);
    }
  }

  /** DELETE keeps the shape: it only removes keys. */
  lemma DeleteRowsWellFormed(b: Bucket, condition: string)
    requires WellFormed(b) && DeleteRows(b, condition).Some?
    ensures WellFormed(DeleteRows(b, condition).value)
  {
    var r := DeleteRows(b, condition).value;
    forall k | k in Contents(r) ensures KeyShape(k, r.sequence) {
      assert KeyShape(k, b.sequence);
    }
  }

  /** DELETE removes the one matching cell, not the row: a cell of the same row
      under another column stays. */
  lemma DeleteLeavesRestOfRow(b: Bucket, condition: string, k: string)
    requires DeleteRows(b, condition).Some? && k in Contents(b)
    requires IsSchemaKey(k) || !Decodable(k) || ColumnOf(k) != condition
    ensures k in Contents(DeleteRows(b, condition).value)
  {
  }

  /** Distinct names have distinct schema keys. */
  lemma SchemaKeyInjective(a: string, b: string)
    requires a != b
    ensures SchemaKey(a) != SchemaKey(b)
  {
    SchemaKeyRoundTrip(a);
    SchemaKeyRoundTrip(b);
  }

  /** CREATE TABLE stores each definition under "col:<its first word>"; of two
      definitions declaring one name, the later one stays. */
  lemma DefineColumnsStores(b: Bucket, definitions: seq<string>, i: nat)
    requires !AnyBlank(definitions) && i < |definitions|
    requires forall j | i < j < |definitions| :: ColumnName(definitions[j]) != ColumnName(definitions[i])
    ensures var after := Contents(PutAll(b, SchemaEntries(definitions)));
      var k := SchemaKey(ColumnName(definitions[i]).value);
      k in after && after[k] == definitions[i]
  {
    var ws := SchemaEntries(definitions);
    forall j | i < j < |ws| ensures ws[j].key != ws[i].key {
      SchemaKeyInjective(ColumnName(definitions[j]).value, ColumnName(definitions[i]).value);
    }
    OverlayLast(ws, i);
  }

  /** CREATE TABLE on an existing bucket leaves every data pair as it was. */
  lemma DefineColumnsKeepsData(b: Bucket, definitions: seq<string>, k: string)
    requires !AnyBlank(definitions) && !IsSchemaKey(k)
    ensures var after := Contents(PutAll(b, SchemaEntries(definitions)));
      (k in after <==> k in Contents(b)) && (k in after ==> after[k] == Contents(b)[k])
  {
    OverlayKeys(SchemaEntries(definitions));
    SchemaEntriesKeys(definitions);
  }

  /** Repeating a CREATE TABLE changes nothing: the bucket already exists and the
      same schema keys are written again with the same text. */
  lemma DefineColumnsTwice(b: Bucket, definitions: seq<string>)
    requires !AnyBlank(definitions)
    ensures var once := PutAll(b, SchemaEntries(definitions));
      Contents(PutAll(once, SchemaEntries(definitions))) == Contents(once)
  {
    UnionTwice(Contents(b), Overlay(SchemaEntries(definitions)));
  }

  /** Writing the same overlay twice is writing it once. */
  lemma UnionTwice(m: map<string, string>, o: map<string, string>)
    ensures m + o + o == m + o
  {
  }

  /** Two inserts in a row draw ids n+1 and n+2, so they write disjoint sets of
      keys and the second never overwrites a cell of the first. */
  lemma InsertsDrawDistinctIds(b: Bucket, c1: seq<string>, v1: seq<string>, c2: seq<string>, v2: seq<string>)
    requires InsertRow(b, c1, v1).Some?
    requires InsertRow(InsertRow(b, c1, v1).value, c2, v2).Some?
    ensures var b1 := InsertRow(b, c1, v1).value;
      var w1 := Overlay(CellWrites(b.sequence + 1, c1, v1).value);
      var w2 := Overlay(CellWrites(b1.sequence + 1, c2, v2).value);
      b1.sequence == b.sequence + 1 && w1.Keys !! w2.Keys
  {
    CellWritesOfDistinctIds(b.sequence + 1, b.sequence + 2, c1, v1, c2, v2);
  }

  /** The cells of two different row ids never share a key. */
  lemma CellWritesOfDistinctIds(m: nat, n: nat, c1: seq<string>, v1: seq<string>, c2: seq<string>, v2: seq<string>)
    requires m != n && CellWrites(m, c1, v1).Some? && CellWrites(n, c2, v2).Some?
    ensures Overlay(CellWrites(m, c1, v1).value).Keys !! Overlay(CellWrites(n, c2, v2).value).Keys
  {
    var ws1, ws2 := CellWrites(m, c1, v1).value, CellWrites(n, c2, v2).value;
    OverlayKeys(ws1);
    OverlayKeys(ws2);
    CellWritesKeys(m, c1, v1);
    CellWritesKeys(n, c2, v2);
    assert Decimal(m) != Decimal(n) by {
      DecimalRoundTrip(m);
      DecimalRoundTrip(n);
    }
  }

  /** The condition is all the text after "WHERE ", so a clause written as
      "column = value" is compared with whole column names: on a bucket whose
      columns hold no '=', UPDATE and DELETE with such a clause change nothing. */
  lemma EqualsConditionHitsNothing(b: Bucket, setColumn: string, setValue: string, condition: string)
    requires Contains(condition, "=")
    requires forall k | k in Contents(b) && !IsSchemaKey(k) && Decodable(k) :: !Contains(ColumnOf(k), "=")
    requires !AnyBroken(Snapshot(b.entries))
    ensures Contents(UpdateRows(b, setColumn, setValue, condition).value) == Contents(b)
    ensures Contents(DeleteRows(b, condition).value) == Contents(b)
  {
    NoKeyHit(b, setColumn, condition);
    var ks := Snapshot(b.entries);
    var written := map k | k in Targets(ks, setColumn, condition) :: setValue;
    assert written == map[];
    assert Contents(b) + written == Contents(b);
    assert Contents(b) - Hits(ks, condition) == Contents(b);
  }

  /** The key-by-key half of EqualsConditionHitsNothing. */
  lemma NoKeyHit(b: Bucket, setColumn: string, condition: string)
    requires Contains(condition, "=")
    requires forall k | k in Contents(b) && !IsSchemaKey(k) && Decodable(k) :: !Contains(ColumnOf(k), "=")
    ensures var ks := Snapshot(b.entries); Targets(ks, setColumn, condition) == {} && Hits(ks, condition) == {}
  {
    var ks := Snapshot(b.entries);
    forall i | 0 <= i < |ks| ensures !Hit(ks[i], condition) {
      KeySetHasIndex(b.entries, i);
    }
  }
}
