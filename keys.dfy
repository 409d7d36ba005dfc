/** How a table lies in its bucket: schema keys "col:<name>" hold column
    definitions, data keys "<id>:<column>" hold one cell each. */
module Keys {
  import opened GoStrings

  const SchemaPrefix: string := "col:"

  /** The key under which a column definition is stored. */
  function SchemaKey(name: string): string {
    SchemaPrefix + name
  }

  /** The executors take every key that starts with "col:" for schema. */
  predicate IsSchemaKey(k: string) {
    HasPrefix(k, SchemaPrefix)
  }

  /** The column name a schema key stands for. */
  function SchemaName(k: string): string {
    TrimPrefix(k, SchemaPrefix)
  }

  lemma SchemaKeyRoundTrip(name: string)
    ensures IsSchemaKey(SchemaKey(name)) && SchemaName(SchemaKey(name)) == name
  {
    assert SchemaKey(name)[..|SchemaPrefix|] == SchemaPrefix;
  }

  predicate IsDigit(c: char) {
    '0' <= c <= '9'
  }

  predicate AllDigits(s: string) {
    forall i | 0 <= i < |s| :: IsDigit(s[i])
  }

  function Digit(d: nat): (c: char)
    requires d < 10
    ensures IsDigit(c) && c as int - '0' as int == d
  {
    ('0' as int + d) as char
  }

  /** fmt's %d for the unsigned row id: decimal digits, no sign, no leading zero. */
  function Decimal(n: nat): (s: string)
    ensures s != [] && AllDigits(s)
    ensures |s| > 1 ==> s[0] != '0'
  {
    if n < 10 then [Digit(n)] else Decimal(n / 10) + [Digit(n % 10)]
  }

  /** The number a string of decimal digits denotes. */
  function DecimalValue(s: string): nat
    requires AllDigits(s)
  {
    if s == [] then 0 else 10 * DecimalValue(s[..|s| - 1]) + (s[|s| - 1] as int - '0' as int)
  }

  /** Reading back what %d wrote gives the number again. */
  lemma {:induction false} DecimalRoundTrip(n: nat)
    ensures DecimalValue(Decimal(n)) == n
    decreases n
  {
    if n >= 10 {
      DecimalRoundTrip(n / 10);
      var s := Decimal(n);
      assert s[..|s| - 1] == Decimal(n / 10);
    }
  }

  /** What %d writes: digits, not empty, and no leading zero. */
  predicate IsDecimal(s: string) {
    s != [] && AllDigits(s) && (|s| > 1 ==> s[0] != '0')
  }

  /** A digit string with a non-zero first digit denotes a positive number. */
  lemma {:induction false} LeadingDigitPositive(s: string)
    requires s != [] && AllDigits(s) && s[0] != '0'
    ensures DecimalValue(s) >= 1
    decreases |s|
  {
    if |s| > 1 {
      var init := s[..|s| - 1];
      assert init[0] == s[0];
      LeadingDigitPositive(init);
    }
  }

  /** Writing with %d the number a decimal string denotes gives that string back. */
  lemma {:induction false} DecimalOfValue(s: string)
    requires IsDecimal(s)
    ensures Decimal(DecimalValue(s)) == s
    decreases |s|
  {
    var d := s[|s| - 1] as int - '0' as int;
    if |s| == 1 {
      assert DecimalValue(s) == d;
      assert Digit(d) == s[0];
    } else {
      var init := s[..|s| - 1];
      assert init[0] == s[0];
      LeadingDigitPositive(init);
      DecimalOfValue(init);
      var v := DecimalValue(s);
      assert v == 10 * DecimalValue(init) + d;
      assert v / 10 == DecimalValue(init) && v % 10 == d;
      assert Digit(d) == s[|s| - 1];
      assert s == init + [s[|s| - 1]];
    }
  }

  /** Distinct row ids are written as distinct strings. */
  lemma DecimalInjective(a: nat, b: nat)
    requires Decimal(a) == Decimal(b)
    ensures a == b
  {
    DecimalRoundTrip(a);
    DecimalRoundTrip(b);
  }

  lemma DigitsHaveNoColon(s: string)
    requires AllDigits(s)
    ensures !Contains(s, ":")
  {
    forall j | 0 <= j < |s| ensures !OccursAt(s, ":", j) {
      assert s[j..j + 1] == [s[j]];
    }
  }

  /** fmt.Sprintf("%d:%s", id, col) once the id is rendered, and fmt.Sprintf("%s:%s", id, col). */
  function CellKey(id: string, column: string): string {
    id + ":" + column
  }

  /** strings.Split(k, ":"), which is how the executors take a data key apart. */
  function KeyParts(k: string): (p: seq<string>)
    ensures p != []
  {
    Split(k, ":")
  }

  /** The row id of a data key: the text before its first ':'. */
  function RowIdOf(k: string): string {
    KeyParts(k)[0]
  }

  /** A key the executors can decode: strings.Split gives it at least two parts. */
  predicate Decodable(k: string) {
    |KeyParts(k)| >= 2
  }

  /** The column of a data key: the text between its first and second ':'. */
  function ColumnOf(k: string): string
    requires Decodable(k)
  {
    KeyParts(k)[1]
  }

  /** A cell key whose row id holds no ':' comes apart at the ':' the key was built with. */
  lemma CellKeyParts(id: string, column: string)
    requires !Contains(id, ":")
    ensures KeyParts(CellKey(id, column)) == [id] + KeyParts(column)
  {
    var k := CellKey(id, column);
    var r := Index(k, ":");
    assert OccursAt(k, ":", |id|);
    forall j | 0 <= j < |id| ensures !OccursAt(k, ":", j) {
      assert k[j..j + 1] == id[j..j + 1];
      assert !OccursAt(id, ":", j);
    }
    assert r == |id|;
    assert k[..r] == id && k[r + 1..] == column;
  }

  /** The key written for a cell decodes to that cell's row id and column, as long
      as neither holds a ':'. */
  lemma CellKeyDecodes(id: string, column: string)
    requires !Contains(id, ":") && !Contains(column, ":")
    ensures Decodable(CellKey(id, column))
    ensures RowIdOf(CellKey(id, column)) == id && ColumnOf(CellKey(id, column)) == column
  {
    CellKeyParts(id, column);
  }

  /** A decodable key starts with its row id and a ':'. */
  lemma {:induction false} DecodableShape(k: string)
    requires Decodable(k)
    ensures HasPrefix(k, RowIdOf(k) + ":")
    ensures !Contains(RowIdOf(k), ":")
  {
    var i := Index(k, ":");
    assert i >= 0;
    assert k[..i + 1] == k[..i] + k[i..i + 1];
  }

  /** A key written by INSERT is never mistaken for a schema key. */
  lemma CellKeyNotSchema(n: nat, column: string)
    ensures !IsSchemaKey(CellKey(Decimal(n), column))
  {
    var k := CellKey(Decimal(n), column);
    assert k[0] == Decimal(n)[0];
  }

  /** UPDATE writes under the row id of a data key it decoded; that key is never a
      schema key either. */
  lemma RowKeyNotSchema(k: string, column: string)
    requires !IsSchemaKey(k) && Decodable(k)
    ensures !IsSchemaKey(CellKey(RowIdOf(k), column))
  {
    var id := RowIdOf(k);
    var w := CellKey(id, column);
    DecodableShape(k);
    if |id| >= 4 {
      assert !OccursAt(id, ":", 3);
      assert id[3..4] == [id[3]] && w[3] == id[3];
    } else if |id| == 3 {
      assert w[..4] == id + ":";
      assert k[..4] == id + ":";
    } else {
      assert w[|id|] == ':';
    }
  }
}
