/**
 * `variable_transform`: builds the dict from field name to SQL column type
 * out of the (name, type tag) pairs of a feature class, as written, with
 * its `Date` defect, and the version the authors evidently meant.
 */
module FieldTypes {
  import opened Text
  import opened Dict

  /** A field of the source data: its base name and its type tag. */
  type Field = (string, string)

  datatype Error = KeyError(key: string)

  datatype Result<T> = Ok(value: T) | Err(error: Error)

  /** The column type of each type tag the if/elif chain assigns. */
  function SqlType(tag: string): Option<string> {
    if tag == "OID" then Some("PRIMARY KEY")
    else if tag == "GlobalID" then Some("INTEGER")
    else if tag == "Guid" then Some("INTEGER")
    else if tag == "Integer" then Some("INTEGER")
    else if tag == "SmallInteger" then Some("SMALLINT")
    else if tag == "Single" then Some("FLOAT")
    else if tag == "Double" then Some("FLOAT")
    else if tag == "Geometry" then Some("GEOMETRY")
    else if tag == "String" then Some("VARCHAR(255)")
    else None
  }

  /**
   * One pass of the loop body as written. A `Date` field only evaluates
   * `vartype[name] == 'DATE'`: that reads the entry, so a missing name
   * raises KeyError, and it stores nothing.
   */
  function Step(vartype: Dict<string>, field: Field): Result<Dict<string>> {
    match SqlType(field.1)
    case Some(t) => Ok(Put(vartype, field.0, t))
    case None =>
      if field.1 == "Date" && Get(vartype, field.0).None? then Err(KeyError(field.0))
      else Ok(vartype)
  }

  /** The result of the whole loop over `fields`, starting from `{}`. */
  function Transform(fields: seq<Field>): Result<Dict<string>>
    decreases |fields|
  {
    if |fields| == 0 then Ok([])
    else match Transform(fields[..|fields| - 1])
      case Err(e) => Err(e)
      case Ok(vartype) => Step(vartype, fields[|fields| - 1])
  }

  /** Once a prefix of the fields has raised, the whole call raises the same error. */
  lemma {:induction false} TransformErrorSticks(fields: seq<Field>, i: nat)
    requires i <= |fields|
    requires Transform(fields[..i]).Err?
    ensures Transform(fields) == Transform(fields[..i])
    decreases |fields| - i
  {
    if i < |fields| {
      var next := fields[..i + 1];
      assert next[..|next| - 1] == fields[..i];
      TransformErrorSticks(fields, i + 1);
    } else {
      assert fields[..i] == fields;
    }
  }

  /** `variable_transform(fields)`: the loop of the source, stopping at the first KeyError. */
  method VariableTransform(fields: seq<Field>) returns (r: Result<Dict<string>>)
    ensures r == Transform(fields)
  {
    var vartype: Dict<string> := [];
    var i := 0;
    while i < |fields|
      invariant 0 <= i <= |fields|
      invariant Transform(fields[..i]) == Ok(vartype)
    {
      var point := fields[i];
      assert fields[..i + 1][..i] == fields[..i];
      if point.1 == "OID" {
        vartype := Put(vartype, point.0, "PRIMARY KEY");
      } else if point.1 == "GlobalID" {
        vartype := Put(vartype, point.0, "INTEGER");
      } else if point.1 == "Guid" {
        vartype := Put(vartype, point.0, "INTEGER");
      } else if point.1 == "Integer" {
        vartype := Put(vartype, point.0, "INTEGER");
      } else if point.1 == "SmallInteger" {
        vartype := Put(vartype, point.0, "SMALLINT");
      } else if point.1 == "Single" {
        vartype := Put(vartype, point.0, "FLOAT");
      } else if point.1 == "Double" {
        vartype := Put(vartype, point.0, "FLOAT");
      } else if point.1 == "Geometry" {
        vartype := Put(vartype, point.0, "GEOMETRY");
      } else if point.1 == "String" {
        vartype := Put(vartype, point.0, "VARCHAR(255)");
      } else if point.1 == "Date" {
        if Get(vartype, point.0).None? {
          r := Err(KeyError(point.0));
          TransformErrorSticks(fields, i + 1);
          return;
        }
      }
      i := i + 1;
    }
    assert fields[..i] == fields;
    r := Ok(vartype);
  }

  /**
   * An independent reading of the chain: the column type of `name` is the
   * one of the LAST field of that name whose tag the chain maps; later
   * fields overwrite earlier ones and unmapped tags leave no trace. With
   * `withDate`, `Date` maps to `DATE` as well.
   */
  function DeclaredType(fields: seq<Field>, name: string, withDate: bool): Option<string>
    decreases |fields|
  {
    if |fields| == 0 then None
    else
      var last := fields[|fields| - 1];
      var t := ColumnType(last.1, withDate);
      if last.0 == name && t.Some? then t else DeclaredType(fields[..|fields| - 1], name, withDate)
  }

  function ColumnType(tag: string, withDate: bool): Option<string> {
    if withDate && tag == "Date" then Some("DATE") else SqlType(tag)
  }

  /**
   * A successful `variable_transform` holds, for every name, exactly the type
   * of the last mapped field of that name, and each name at most once.
   * In particular its keys are names of input fields.
   */
  lemma {:induction false} TransformDeclares(fields: seq<Field>)
    requires Transform(fields).Ok?
    ensures DistinctKeys(Transform(fields).value)
    ensures forall name :: Get(Transform(fields).value, name) == DeclaredType(fields, name, false)
    decreases |fields|
  {
    if |fields| > 0 {
      var prefix := fields[..|fields| - 1];
      TransformDeclares(prefix);
      var last := fields[|fields| - 1];
      if SqlType(last.1).Some? {
        PutDistinct(Transform(prefix).value, last.0, SqlType(last.1).value);
      }
    }
  }

  ghost predicate UndeclaredDate(fields: seq<Field>, i: int) {
    0 <= i < |fields| && fields[i].1 == "Date" && DeclaredType(fields[..i], fields[i].0, false).None?
  }

  /** `i` is the first position of `fields` that `UndeclaredDate` accepts. */
  ghost predicate FirstUndeclaredDate(fields: seq<Field>, i: int) {
    UndeclaredDate(fields, i) && forall j :: 0 <= j < i ==> !UndeclaredDate(fields, j)
  }

  /**
   * `variable_transform` raises KeyError exactly when some `Date` field's
   * name has not been given a type by an earlier field, and the error names
   * the first such field, where the loop stops.
   */
  lemma {:induction false} TransformFailsIff(fields: seq<Field>)
    ensures Transform(fields).Err? <==> exists i :: UndeclaredDate(fields, i)
    ensures Transform(fields).Err? ==>
      exists i :: FirstUndeclaredDate(fields, i) && fields[i].0 == Transform(fields).error.key
    decreases |fields|
  {
    if |fields| > 0 {
      var n := |fields| - 1;
      var prefix := fields[..n];
      TransformFailsIff(prefix);
      UndeclaredDateSnoc(fields);
      if Transform(prefix).Err? {
        assert Transform(fields) == Transform(prefix);
        var i :| FirstUndeclaredDate(prefix, i) && prefix[i].0 == Transform(prefix).error.key;
        assert fields[i] == prefix[i];
        assert FirstUndeclaredDate(fields, i);
      } else {
        TransformLastStep(fields);
        if Transform(fields).Err? {
          assert FirstUndeclaredDate(fields, n);
        }
      }
    }
  }

  /** Below the last position, a field is an undeclared `Date` in `fields` iff it is one in the prefix. */
  lemma UndeclaredDateSnoc(fields: seq<Field>)
    requires |fields| > 0
    ensures forall i :: 0 <= i < |fields| - 1 ==>
      (UndeclaredDate(fields, i) <==> UndeclaredDate(fields[..|fields| - 1], i))
  {
    var prefix := fields[..|fields| - 1];
    forall i | 0 <= i < |fields| - 1 ensures fields[..i] == prefix[..i] && fields[i] == prefix[i] {
    }
  }

  /** After a successful prefix, the last field raises exactly when it is an undeclared `Date`. */
  lemma TransformLastStep(fields: seq<Field>)
    requires |fields| > 0 && Transform(fields[..|fields| - 1]).Ok?
    ensures Transform(fields).Err? <==> UndeclaredDate(fields, |fields| - 1)
    ensures Transform(fields).Err? ==> Transform(fields).error.key == fields[|fields| - 1].0
  {
    var n := |fields| - 1;
    var prefix := fields[..n];
    var last := fields[n];
    var vartype := Transform(prefix).value;
    assert Transform(fields) == Step(vartype, last);
    StepFails(vartype, last);
    TransformDeclares(prefix);
    assert Get(vartype, last.0) == DeclaredType(prefix, last.0, false);
  }

  /** One pass raises exactly on a `Date` field whose name is not yet a key, and names that field. */
  lemma StepFails(vartype: Dict<string>, field: Field)
    ensures Step(vartype, field).Err? <==> field.1 == "Date" && Get(vartype, field.0).None?
    ensures Step(vartype, field).Err? ==> Step(vartype, field).error.key == field.0
  {
    if field.1 == "Date" {
      assert SqlType(field.1).None?;
    }
  }

  /**
   * A `Date` field never adds to the dict: the call raises if its name is
   * not declared yet, and otherwise the dict is left exactly as it was.
   */
  lemma DateFieldKeepsDict(fields: seq<Field>, name: string)
    ensures Transform(fields + [(name, "Date")]) ==
      if Transform(fields).Err? || DeclaredType(fields, name, false).Some? then Transform(fields)
      else Err(KeyError(name))
  {
    var all := fields + [(name, "Date")];
    assert all[..|all| - 1] == fields;
    if Transform(fields).Ok? {
      TransformDeclares(fields);
    }
  }

  /**
   * Without `Date` fields the defect is invisible: the call succeeds and
   * agrees with the evidently intended mapping.
   */
  lemma {:induction false} TransformWithoutDates(fields: seq<Field>)
    requires forall i :: 0 <= i < |fields| ==> fields[i].1 != "Date"
    ensures Transform(fields) == Ok(TransformIntended(fields))
    decreases |fields|
  {
    if |fields| > 0 {
      TransformWithoutDates(fields[..|fields| - 1]);
    }
  }

  /** When every tag is one the chain maps, the call succeeds. */
  lemma {:induction false} TransformAllMapped(fields: seq<Field>)
    requires forall i :: 0 <= i < |fields| ==> SqlType(fields[i].1).Some?
    ensures Transform(fields).Ok?
    decreases |fields|
  {
    if |fields| > 0 {
      var n := |fields| - 1;
      var prefix := fields[..n];
      forall i | 0 <= i < n ensures SqlType(prefix[i].1).Some? {
        assert prefix[i] == fields[i];
      }
      TransformAllMapped(prefix);
    }
  }

  /** Line 95 written as the assignment it was meant to be: `Date` maps to `DATE`. */
  function TransformIntended(fields: seq<Field>): Dict<string>
    decreases |fields|
  {
    if |fields| == 0 then []
    else
      var vartype := TransformIntended(fields[..|fields| - 1]);
      var last := fields[|fields| - 1];
      match ColumnType(last.1, true)
      case Some(t) => Put(vartype, last.0, t)
      case None => vartype
  }

  /**
   * The intended mapping never raises and holds, for every name, the type
   * of the last field of that name whose tag is mapped, `Date` included.
   */
  lemma {:induction false} TransformIntendedDeclares(fields: seq<Field>)
    ensures DistinctKeys(TransformIntended(fields))
    ensures forall name :: Get(TransformIntended(fields), name) == DeclaredType(fields, name, true)
    decreases |fields|
  {
    if |fields| > 0 {
      var prefix := fields[..|fields| - 1];
      TransformIntendedDeclares(prefix);
      var last := fields[|fields| - 1];
      if ColumnType(last.1, true).Some? {
        PutDistinct(TransformIntended(prefix), last.0, ColumnType(last.1, true).value);
      }
    }
  }

  /**
   * The defect on concrete input: a lone `Date` field raises KeyError, and a
   * `Date` field after a `String` field of the same name keeps the string
   * type, where the intended mapping gives `DATE` in both cases.
   */
  lemma DateDefect()
    ensures Transform([("created", "Date")]) == Err(KeyError("created"))
    ensures TransformIntended([("created", "Date")]) == [("created", "DATE")]
    ensures Transform([("created", "String"), ("created", "Date")]) == Ok([("created", "VARCHAR(255)")])
    ensures TransformIntended([("created", "String"), ("created", "Date")]) == [("created", "DATE")]
  {
    var one: seq<Field> := [("created", "Date")];
    assert one[..0] == [];
    var two: seq<Field> := [("created", "String"), ("created", "Date")];
    assert two[..1] == [("created", "String")];
    assert two[..1][..0] == [];
  }
}
