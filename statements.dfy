/**
 * The SQL text `shp_file_upload` sends: the DROP guard, the CREATE TABLE
 * built from the field-type dict, and one INSERT per row with its string
 * values quoted by hand. Only the statement strings are modelled; running
 * them against a database is not.
 */
module Statements {
  import opened Text
  import opened Dict
  import opened FieldTypes

  const DropHead := "IF OBJECT_ID('dbo."
  const DropMiddle := "', 'U') IS NOT NULL DROP TABLE "

  /** The statement that drops the target table if it exists. */
  function DropTable(name: string): string {
    DropHead + name + DropMiddle + name
  }

  /**
   * The DROP statement names the table twice, once after `dbo.` inside the
   * existence test and once at the very end, and the name can be read back
   * from either place: different tables get different statements.
   */
  lemma DropTableNamesTable(a: string, b: string)
    ensures var r := DropTable(a);
      StartsWith(r, DropHead + a) && EndsWith(r, DropMiddle + a)
    ensures DropTable(a) == DropTable(b) ==> a == b
  {
    var r := DropTable(a);
    assert r[..|DropHead + a|] == DropHead + a;
    assert r[|r| - |DropMiddle + a|..] == DropMiddle + a;
    if DropTable(a) == DropTable(b) {
      assert |a| == |b|;
      assert a == r[|DropHead|..|DropHead| + |a|];
      assert b == DropTable(b)[|DropHead|..|DropHead| + |b|];
    }
  }

  /** The column definition of one `(name, type)` entry of the dict. */
  function ColumnDef(entry: (string, string)): string {
    if entry.1 == "PRIMARY KEY" then entry.0 + " INTEGER NOT NULL PRIMARY KEY"
    else entry.0 + " " + entry.1 + " NOT NULL"
  }

  function Columns(items: Dict<string>): (r: seq<string>)
    ensures |r| == |items|
    ensures forall k :: 0 <= k < |items| ==> r[k] == ColumnDef(items[k])
    decreases |items|
  {
    if |items| == 0 then [] else Columns(items[..|items| - 1]) + [ColumnDef(items[|items| - 1])]
  }

  /** The CREATE TABLE statement for the dict `vartype`, columns in key order. */
  function CreateTable(name: string, vartype: Dict<string>): string {
    "CREATE TABLE dbo." + name + " (" + Join(Columns(SortByKey(vartype)), ", ") + ")"
  }

  /** The `Fields` loop and the `create_table` format of `shp_file_upload`. */
  method BuildCreateTable(name: string, vartype: Dict<string>) returns (createTable: string)
    ensures createTable == CreateTable(name, vartype)
  {
    var items := SortByKey(vartype);
    var fields: seq<string> := [];
    var i := 0;
    while i < |items|
      invariant 0 <= i <= |items|
      invariant fields == Columns(items[..i])
    {
      var entry := items[i];
      assert items[..i + 1][..i] == items[..i];
      if entry.1 == "PRIMARY KEY" {
        fields := fields + [entry.0 + " INTEGER NOT NULL PRIMARY KEY"];
      } else {
        fields := fields + [entry.0 + " " + entry.1 + " NOT NULL"];
      }
      i := i + 1;
    }
    assert items[..i] == items;
    createTable := "CREATE TABLE dbo." + name + " (" + Join(fields, ", ") + ")";
  }

  /**
   * For the dict `variable_transform` returns, the CREATE TABLE lists one
   * column per declared field name, in strictly ascending name order, each
   * with the type that name was declared with.
   */
  lemma CreateTableColumns(fields: seq<Field>)
    requires Transform(fields).Ok?
    ensures var items := SortByKey(Transform(fields).value);
      && SortedKeys(items)
      && (forall k :: 0 <= k < |items| ==>
            DeclaredType(fields, items[k].0, false) == Some(items[k].1)
            && Columns(items)[k] == ColumnDef(items[k]))
      && (forall n :: DeclaredType(fields, n, false).Some? ==> n in KeySet(items))
  {
    var vartype := Transform(fields).value;
    TransformDeclares(fields);
    SortByKeyCorrect(vartype);
    var items := SortByKey(vartype);
    forall k | 0 <= k < |items|
      ensures DeclaredType(fields, items[k].0, false) == Some(items[k].1)
    {
      assert items[k] in multiset(vartype);
      var m :| 0 <= m < |vartype| && vartype[m] == items[k];
      GetDistinct(vartype, m);
    }
    forall n | DeclaredType(fields, n, false).Some? ensures n in KeySet(items) {
      GetSome(vartype, n);
    }
  }

  lemma {:induction false} GetDistinct<V>(d: Dict<V>, m: int)
    requires DistinctKeys(d) && 0 <= m < |d|
    ensures Get(d, d[m].0) == Some(d[m].1)
    decreases m
  {
    if m > 0 {
      GetDistinct(d[1..], m - 1);
    }
  }

  /** Python's `s.encode('ascii', 'ignore')` on a unicode value: non-ASCII characters are dropped. */
  function AsciiOnly(s: string): (r: string)
    ensures forall c :: c in r ==> c in s && c < 128 as char
    ensures forall c :: c in s && c < 128 as char ==> c in r
    ensures |r| <= |s|
    decreases |s|
  {
    if |s| == 0 then ""
    else
      var rest := AsciiOnly(s[1..]);
      assert s == [s[0]] + s[1..];
      assert forall c :: c in s[1..] ==> c in s;
      if s[0] < 128 as char then [s[0]] + rest else rest
  }

  /**
   * The filter works character by character: filtering a concatenation
   * filters each part and keeps them in order. With the one-character case
   * of the body, this fixes the result as the ASCII characters of `s`, in
   * order, each kept once.
   */
  lemma {:induction false} AsciiOnlyAppend(a: string, b: string)
    ensures AsciiOnly(a + b) == AsciiOnly(a) + AsciiOnly(b)
    decreases |a|
  {
    if |a| > 0 {
      assert (a + b)[0] == a[0];
      assert (a + b)[1..] == a[1..] + b;
      AsciiOnlyAppend(a[1..], b);
    } else {
      assert a + b == b;
    }
  }

  /** Text that is plain ASCII already passes through unchanged. */
  lemma {:induction false} AsciiOnlyKeepsAscii(s: string)
    requires forall c :: c in s ==> c < 128 as char
    ensures AsciiOnly(s) == s
    decreases |s|
  {
    if |s| > 0 {
      assert s[0] in s;
      forall c | c in s[1..] ensures c < 128 as char {
        assert c in s;
      }
      AsciiOnlyKeepsAscii(s[1..]);
      assert s == [s[0]] + s[1..];
    }
  }

  /** Python's `s.replace("'", "''")`. */
  function DoubleQuotes(s: string): string
    decreases |s|
  {
    if |s| == 0 then ""
    else (if s[0] == '\'' then "''" else [s[0]]) + DoubleQuotes(s[1..])
  }

  /**
   * Reads the body of an SQL character string literal back: each `''`
   * stands for one `'`, and a `'` on its own would end the literal, so the
   * body is rejected.
   */
  function Unquote(body: string): Option<string>
    decreases |body|
  {
    if |body| == 0 then Some("")
    else if body[0] == '\'' then
      if |body| >= 2 && body[1] == '\'' then
        match Unquote(body[2..])
        case Some(rest) => Some("'" + rest)
        case None => None
      else None
    else
      match Unquote(body[1..])
      case Some(rest) => Some([body[0]] + rest)
      case None => None
  }

  lemma {:induction false} UnquoteDoubleQuotes(s: string)
    ensures Unquote(DoubleQuotes(s)) == Some(s)
    decreases |s|
  {
    if |s| > 0 {
      UnquoteDoubleQuotes(s[1..]);
      var head := if s[0] == '\'' then "''" else [s[0]];
      var body := DoubleQuotes(s);
      assert body == head + DoubleQuotes(s[1..]);
      if s[0] == '\'' {
        assert body[2..] == DoubleQuotes(s[1..]);
      } else {
        assert body[1..] == DoubleQuotes(s[1..]);
      }
      assert s == [s[0]] + s[1..];
    }
  }

  /** The literal a text value is written as: `'` + escaped ASCII text + `'`. */
  function QuoteLiteral(s: string): string {
    "'" + DoubleQuotes(AsciiOnly(s)) + "'"
  }

  /**
   * A quoted value is one well-formed SQL character string literal: it
   * opens and closes with `'`, no `'` inside it stands alone, and
   * collapsing the doubled quotes gives back the value's ASCII characters.
   */
  lemma QuoteLiteralRoundTrip(s: string)
    ensures var lit := QuoteLiteral(s);
      && |lit| >= 2 && lit[0] == '\'' && lit[|lit| - 1] == '\''
      && Unquote(lit[1..|lit| - 1]) == Some(AsciiOnly(s))
  {
    var lit := QuoteLiteral(s);
    assert lit[1..|lit| - 1] == DoubleQuotes(AsciiOnly(s));
    UnquoteDoubleQuotes(AsciiOnly(s));
  }

  /**
   * A value read from a row: text (`str` or `unicode`), or any other value,
   * kept as the text `str()` gives it, which is not modelled.
   */
  datatype Value = Str(s: string) | Other(rendered: string)

  function Render(v: Value): string {
    match v
    case Str(s) => QuoteLiteral(s)
    case Other(t) => t
  }

  function ValuesOf(items: Dict<Value>): seq<Value>
    decreases |items|
  {
    if |items| == 0 then [] else ValuesOf(items[..|items| - 1]) + [items[|items| - 1].1]
  }

  function RenderAll(vs: seq<Value>): seq<string>
    decreases |vs|
  {
    if |vs| == 0 then [] else RenderAll(vs[..|vs| - 1]) + [Render(vs[|vs| - 1])]
  }

  /** `values` holds the value of each pair, position by position. */
  lemma {:induction false} ValuesOfSpec(items: Dict<Value>)
    ensures |ValuesOf(items)| == |items|
    ensures forall k :: 0 <= k < |items| ==> ValuesOf(items)[k] == items[k].1
    decreases |items|
  {
    if |items| > 0 {
      ValuesOfSpec(items[..|items| - 1]);
    }
  }

  /** `values2` renders each value on its own: text quoted, anything else as given. */
  lemma {:induction false} RenderAllSpec(vs: seq<Value>)
    ensures |RenderAll(vs)| == |vs|
    ensures forall k :: 0 <= k < |vs| ==> RenderAll(vs)[k] == Render(vs[k])
    decreases |vs|
  {
    if |vs| > 0 {
      RenderAllSpec(vs[..|vs| - 1]);
    }
  }

  /** The INSERT statement of one row, values in ascending field-name order. */
  function InsertRow(name: string, row: Dict<Value>): string {
    "INSERT INTO dbo." + name + " VALUES (" + Join(RenderAll(ValuesOf(SortByKey(row))), ", ") + ");"
  }

  /** The `values` and `values2` loops and the `insert_row` format for one row. */
  method BuildInsertRow(name: string, row: Dict<Value>) returns (insertRow: string)
    ensures insertRow == InsertRow(name, row)
  {
    var sortedData := SortByKey(row);
    var values: seq<Value> := [];
    var i := 0;
    while i < |sortedData|
      invariant 0 <= i <= |sortedData|
      invariant values == ValuesOf(sortedData[..i])
    {
      assert sortedData[..i + 1][..i] == sortedData[..i];
      values := values + [sortedData[i].1];
      i := i + 1;
    }
    assert sortedData[..i] == sortedData;
    var values2: seq<string> := [];
    var j := 0;
    while j < |values|
      invariant 0 <= j <= |values|
      invariant values2 == RenderAll(values[..j])
    {
      assert values[..j + 1][..j] == values[..j];
      var val := values[j];
      assert RenderAll(values[..j + 1]) == RenderAll(values[..j]) + [Render(val)];
      match val {
        case Str(s) =>
          assert Render(val) == "'" + DoubleQuotes(AsciiOnly(s)) + "'";
          values2 := values2 + ["'" + DoubleQuotes(AsciiOnly(s)) + "'"];
        case Other(t) =>
          values2 := values2 + [t];
      }
      j := j + 1;
    }
    assert values[..j] == values;
    insertRow := "INSERT INTO dbo." + name + " VALUES (" + Join(values2, ", ") + ");";
  }

  function NameSet(names: seq<string>): set<string> {
    set i | 0 <= i < |names| :: names[i]
  }

  /**
   * The dict of one row: `data[fields_list[x][0]] = row[x]` for every
   * position, so a repeated field name keeps its last value.
   */
  function RowDict(names: seq<string>, row: seq<Value>): Dict<Value>
    requires |names| == |row|
    decreases |names|
  {
    if |names| == 0 then []
    else
      var n := |names| - 1;
      Put(RowDict(names[..n], row[..n]), names[n], row[n])
  }

  /** The row dict has each field name as a key exactly once, and no other key. */
  lemma {:induction false} RowDictKeys(names: seq<string>, row: seq<Value>)
    requires |names| == |row|
    ensures DistinctKeys(RowDict(names, row))
    ensures KeySet(RowDict(names, row)) == NameSet(names)
    decreases |names|
  {
    if |names| > 0 {
      var n := |names| - 1;
      var before := RowDict(names[..n], row[..n]);
      assert RowDict(names, row) == Put(before, names[n], row[n]);
      RowDictKeys(names[..n], row[..n]);
      PutDistinct(before, names[n], row[n]);
      NameSetSnoc(names);
      assert KeySet(Put(before, names[n], row[n])) == KeySet(before) + {names[n]};
    }
  }

  lemma NameSetSnoc(names: seq<string>)
    requires |names| > 0
    ensures NameSet(names) == NameSet(names[..|names| - 1]) + {names[|names| - 1]}
  {
    var n := |names| - 1;
    var prefix := names[..n];
    forall x | x in NameSet(names) ensures x in NameSet(prefix) + {names[n]} {
      var i :| 0 <= i < |names| && names[i] == x;
      if i < n {
        assert prefix[i] == x;
      }
    }
    forall x | x in NameSet(prefix) ensures x in NameSet(names) {
      var i :| 0 <= i < n && prefix[i] == x;
      assert names[i] == x;
    }
  }

  /** A field name holds the value at its last position in the row. */
  lemma {:induction false} RowDictLastValue(names: seq<string>, row: seq<Value>, k: int)
    requires |names| == |row| && 0 <= k < |names|
    requires forall j :: k < j < |names| ==> names[j] != names[k]
    ensures Get(RowDict(names, row), names[k]) == Some(row[k])
    decreases |names|
  {
    var n := |names| - 1;
    var key := names[k];
    var before := RowDict(names[..n], row[..n]);
    if k < n {
      var shorter := names[..n];
      assert shorter[k] == key && row[..n][k] == row[k];
      forall j | k < j < n ensures shorter[j] != key {
        assert shorter[j] == names[j];
      }
      RowDictLastValue(shorter, row[..n], k);
      assert names[n] != key;
      assert Get(Put(before, names[n], row[n]), key) == Get(before, key);
    }
  }

  /** The loop of `shp_file_upload` that turns one cursor row into `data`. */
  method BuildRowDict(names: seq<string>, row: seq<Value>) returns (data: Dict<Value>)
    requires |names| == |row|
    ensures data == RowDict(names, row)
  {
    data := [];
    var x := 0;
    while x < |row|
      invariant 0 <= x <= |row|
      invariant data == RowDict(names[..x], row[..x])
    {
      assert names[..x + 1][..x] == names[..x] && row[..x + 1][..x] == row[..x];
      data := Put(data, names[x], row[x]);
      x := x + 1;
    }
    assert names[..x] == names && row[..x] == row;
  }

  function FieldNames(fields: seq<Field>): (r: seq<string>)
    ensures |r| == |fields| && forall k :: 0 <= k < |fields| ==> r[k] == fields[k].0
    decreases |fields|
  {
    if |fields| == 0 then [] else FieldNames(fields[..|fields| - 1]) + [fields[|fields| - 1].0]
  }

  /**
   * When every field has a tag the type chain maps, the INSERT lists its
   * values in exactly the order of the CREATE TABLE columns: the k-th value
   * belongs to the k-th column.
   */
  lemma ValuesLineUpWithColumns(fields: seq<Field>, row: seq<Value>)
    requires |row| == |fields|
    requires forall i :: 0 <= i < |fields| ==> SqlType(fields[i].1).Some?
    ensures Transform(fields).Ok?
    ensures KeySeq(SortByKey(RowDict(FieldNames(fields), row)))
         == KeySeq(SortByKey(Transform(fields).value))
  {
    MappedKeysAreFieldNames(fields);
    var vartype := Transform(fields).value;
    var data := RowDict(FieldNames(fields), row);
    RowDictKeys(FieldNames(fields), row);
    TransformDeclares(fields);
    SortByKeyCorrect(vartype);
    SortByKeyCorrect(data);
    SortedKeysUnique(SortByKey(data), SortByKey(vartype));
  }

  lemma MappedKeysAreFieldNames(fields: seq<Field>)
    requires forall i :: 0 <= i < |fields| ==> SqlType(fields[i].1).Some?
    ensures Transform(fields).Ok?
    ensures KeySet(Transform(fields).value) == NameSet(FieldNames(fields))
  {
    TransformAllMapped(fields);
    var keys := KeySet(Transform(fields).value);
    var names := FieldNames(fields);
    forall n | n in keys ensures n in NameSet(names) {
      KeyIsFieldName(fields, n);
    }
    forall i | 0 <= i < |names| ensures names[i] in keys {
      FieldNameIsKey(fields, i);
    }
  }

  lemma KeyIsFieldName(fields: seq<Field>, n: string)
    requires Transform(fields).Ok? && n in KeySet(Transform(fields).value)
    ensures n in NameSet(FieldNames(fields))
  {
    TransformDeclares(fields);
    GetSome(Transform(fields).value, n);
    DeclaredTypeNamed(fields, n);
  }

  lemma FieldNameIsKey(fields: seq<Field>, i: int)
    requires 0 <= i < |fields| && SqlType(fields[i].1).Some?
    requires Transform(fields).Ok?
    ensures fields[i].0 in KeySet(Transform(fields).value)
  {
    DeclaredTypeMapped(fields, i);
    TransformDeclares(fields);
    GetSome(Transform(fields).value, fields[i].0);
  }

  lemma {:induction false} DeclaredTypeNamed(fields: seq<Field>, n: string)
    requires DeclaredType(fields, n, false).Some?
    ensures n in NameSet(FieldNames(fields))
    decreases |fields|
  {
    var m := |fields| - 1;
    if !(fields[m].0 == n && ColumnType(fields[m].1, false).Some?) {
      DeclaredTypeNamed(fields[..m], n);
      var i :| 0 <= i < m && FieldNames(fields[..m])[i] == n;
      assert FieldNames(fields)[i] == n;
    } else {
      assert FieldNames(fields)[m] == n;
    }
  }

  lemma {:induction false} DeclaredTypeMapped(fields: seq<Field>, i: int)
    requires 0 <= i < |fields| && SqlType(fields[i].1).Some?
    ensures DeclaredType(fields, fields[i].0, false).Some?
    decreases |fields|
  {
    var m := |fields| - 1;
    if i < m {
      DeclaredTypeMapped(fields[..m], i);
    }
  }

  /**
   * A field whose tag the chain does not map (here `Blob`) still gets a
   * value in every INSERT, but no column in the CREATE TABLE: the two
   * statements disagree on the number of columns.
   */
  lemma UnmappedFieldHasNoColumn()
    ensures var fields: seq<Field> := [("id", "OID"), ("photo", "Blob")];
      && Transform(fields) == Ok([("id", "PRIMARY KEY")])
      && |Columns(SortByKey(Transform(fields).value))| == 1
      && |ValuesOf(SortByKey(RowDict(FieldNames(fields), [Other("1"), Other("None")])))| == 2
  {
    var fields: seq<Field> := [("id", "OID"), ("photo", "Blob")];
    assert fields[..1] == [("id", "OID")];
    assert fields[..1][..0] == [];
    assert Transform(fields[..1]) == Ok([("id", "PRIMARY KEY")]);
    var names := FieldNames(fields);
    assert names == ["id", "photo"];
    var row := [Other("1"), Other("None")];
    assert names[..1] == ["id"] && row[..1] == [Other("1")];
    assert names[..1][..0] == [] && row[..1][..0] == [];
    var data := RowDict(names, row);
    var first: Dict<Value> := [("id", Other("1"))];
    assert RowDict(names[..1], row[..1]) == first;
    assert first[1..] == [];
    assert Put(first, "photo", Other("None")) == first + [("photo", Other("None"))];
    assert data == [("id", Other("1")), ("photo", Other("None"))];
    assert SortByKey(data[1..]) == [("photo", Other("None"))];
    assert Less("id", "photo");
    assert |SortByKey(data)| == 2;
  }
}
