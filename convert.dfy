/**
 * `UuidExample::convert`: the walk over a row's columns that fills in the
 * record's `id` from every column named `@0`.
 */
module RowConvert {
  import opened BinlogTypes
  import opened UuidValue

  /** The column name that carries the identifier. */
  const ID_COLUMN: string := "@0"

  /** The record built from one row. */
  datatype UuidExample = UuidExample(id: Uuid)

  /** The value of column `i`, as `row.as_ref(i)` yields it. */
  function ValueAt(row: BinlogRow, i: nat): Option<BinlogValue>
    requires i < |row.cells|
  {
    row.cells[i].value
  }

  predicate IsIdColumn(row: BinlogRow, i: nat)
    requires i < |row.cells|
  {
    row.cells[i].name == ID_COLUMN
  }

  /** Column `i` stops the conversion: it has no value, or it is an `@0` column whose value is no identifier. */
  predicate ColumnFails(row: BinlogRow, i: nat)
    requires i < |row.cells|
  {
    ValueAt(row, i).None? || (IsIdColumn(row, i) && ValueAsUuid(ValueAt(row, i).value).Err?)
  }

  /** The error a failing column reports. */
  function ColumnError(row: BinlogRow, i: nat): Error
    requires i < |row.cells| && ColumnFails(row, i)
  {
    if ValueAt(row, i).None? then ValueWasNone else ValueAsUuid(ValueAt(row, i).value).error
  }

  /** The identifier column `i` decodes to. */
  function ColumnId(row: BinlogRow, i: nat): Uuid
    requires i < |row.cells| && IsIdColumn(row, i) && !ColumnFails(row, i)
  {
    ValueAsUuid(ValueAt(row, i).value).value
  }

  /** The conversion of the columns from `i` on, with `id` the identifier set so far. */
  function ConvertFrom(row: BinlogRow, i: nat, id: Uuid): Result<UuidExample>
    requires i <= |row.cells|
    decreases |row.cells| - i
  {
    if i == |row.cells| then Ok(UuidExample(id))
    else if ColumnFails(row, i) then Err(ColumnError(row, i))
    else ConvertFrom(row, i + 1, if IsIdColumn(row, i) then ColumnId(row, i) else id)
  }

  /** The result `convert` computes for a row; the record starts with the nil identifier. */
  function Conversion(row: BinlogRow): Result<UuidExample> {
    ConvertFrom(row, 0, NIL)
  }

  /** `UuidExample::convert`, column by column with an early return on the first error. */
  method Convert(row: BinlogRow) returns (r: Result<UuidExample>)
    ensures r == Conversion(row)
  {
    var example := UuidExample(NIL);
    for index := 0 to |row.cells|
      invariant ConvertFrom(row, index, example.id) == Conversion(row)
    {
      var value := row.cells[index].value;
      if value.None? {
        return Err(ValueWasNone);
      }
      if row.cells[index].name == ID_COLUMN {
        var id := ValueAsUuid(value.value);
        if id.Err? {
          return Err(id.error);
        }
        example := example.(id := id.value);
      }
    }
    return Ok(example);
  }

  lemma {:induction false} ConvertFromFailsIff(row: BinlogRow, i: nat, id: Uuid)
    requires i <= |row.cells|
    ensures ConvertFrom(row, i, id).Err? <==> exists j :: i <= j < |row.cells| && ColumnFails(row, j)
    decreases |row.cells| - i
  {
    if i < |row.cells| && !ColumnFails(row, i) {
      ConvertFromFailsIff(row, i + 1, if IsIdColumn(row, i) then ColumnId(row, i) else id);
    }
  }

  lemma {:induction false} ConvertFromFirstError(row: BinlogRow, i: nat, id: Uuid, k: nat)
    requires i <= k < |row.cells| && ColumnFails(row, k)
    requires forall j :: i <= j < k ==> !ColumnFails(row, j)
    ensures ConvertFrom(row, i, id) == Err(ColumnError(row, k))
    decreases k - i
  {
    if i < k {
      ConvertFromFirstError(row, i + 1, if IsIdColumn(row, i) then ColumnId(row, i) else id, k);
    }
  }

  lemma {:induction false} ConvertFromNoIdColumn(row: BinlogRow, i: nat, id: Uuid)
    requires i <= |row.cells| && ConvertFrom(row, i, id).Ok?
    requires forall j :: i <= j < |row.cells| ==> !IsIdColumn(row, j)
    ensures ConvertFrom(row, i, id).value.id == id
    decreases |row.cells| - i
  {
    if i < |row.cells| {
      ConvertFromNoIdColumn(row, i + 1, id);
    }
  }

  lemma {:induction false} ConvertFromLastIdColumn(row: BinlogRow, i: nat, id: Uuid, k: nat)
    requires i <= k < |row.cells| && IsIdColumn(row, k)
    requires forall j :: k < j < |row.cells| ==> !IsIdColumn(row, j)
    requires ConvertFrom(row, i, id).Ok?
    ensures !ColumnFails(row, k) && ConvertFrom(row, i, id).value.id == ColumnId(row, k)
    decreases |row.cells| - i
  {
    var next := if IsIdColumn(row, i) then ColumnId(row, i) else id;
    if i < k {
      ConvertFromLastIdColumn(row, i + 1, next, k);
    } else {
      ConvertFromNoIdColumn(row, i + 1, next);
    }
  }

  /**
   * A row fails to convert exactly when some column has no value or is an
   * `@0` column whose value is not an identifier.
   */
  lemma ConversionFailsIff(row: BinlogRow)
    ensures Conversion(row).Err? <==> exists j :: 0 <= j < |row.cells| && ColumnFails(row, j)
  {
    ConvertFromFailsIff(row, 0, NIL);
  }

  /** The error reported is that of the first failing column: later columns are not looked at. */
  lemma ConversionFirstError(row: BinlogRow, k: nat)
    requires k < |row.cells| && ColumnFails(row, k)
    requires forall j :: 0 <= j < k ==> !ColumnFails(row, j)
    ensures Conversion(row) == Err(ColumnError(row, k))
  {
    ConvertFromFirstError(row, 0, NIL, k);
  }

  /** A column without a value stops the conversion whatever its name. */
  lemma MissingValueFails(row: BinlogRow, i: nat)
    requires i < |row.cells| && ValueAt(row, i).None?
    ensures Conversion(row).Err?
  {
    assert ColumnFails(row, i);
    ConversionFailsIff(row);
  }

  /** Without an `@0` column the record keeps the nil identifier. */
  lemma ConversionWithoutIdColumn(row: BinlogRow)
    requires Conversion(row).Ok?
    requires forall j :: 0 <= j < |row.cells| ==> !IsIdColumn(row, j)
    ensures IsNil(Conversion(row).value.id)
  {
    ConvertFromNoIdColumn(row, 0, NIL);
  }

  /** Otherwise the record's identifier is the one decoded from the last `@0` column. */
  lemma ConversionTakesLastIdColumn(row: BinlogRow, k: nat)
    requires Conversion(row).Ok?
    requires k < |row.cells| && IsIdColumn(row, k)
    requires forall j :: k < j < |row.cells| ==> !IsIdColumn(row, j)
    ensures ValueAt(row, k).Some? && ValueAsUuid(ValueAt(row, k).value).Ok?
    ensures Conversion(row).value.id == ValueAsUuid(ValueAt(row, k).value).value
  {
    ConvertFromLastIdColumn(row, 0, NIL, k);
  }

  lemma {:induction false} ConvertFromIgnoresOtherColumn(row: BinlogRow, i: nat, id: Uuid, k: nat, v: BinlogValue)
    requires i <= |row.cells| && k < |row.cells| && !IsIdColumn(row, k) && ValueAt(row, k).Some?
    ensures ConvertFrom(row.(cells := row.cells[k := Cell(row.cells[k].name, Some(v))]), i, id) == ConvertFrom(row, i, id)
    decreases |row.cells| - i
  {
    var row' := row.(cells := row.cells[k := Cell(row.cells[k].name, Some(v))]);
    if i < |row.cells| {
      assert IsIdColumn(row', i) == IsIdColumn(row, i);
      assert ColumnFails(row', i) == ColumnFails(row, i);
      if !ColumnFails(row, i) {
        assert IsIdColumn(row, i) ==> ColumnId(row', i) == ColumnId(row, i);
        ConvertFromIgnoresOtherColumn(row, i + 1, if IsIdColumn(row, i) then ColumnId(row, i) else id, k, v);
      }
    }
  }

  /**
   * The value of a column not named `@0` does not matter, as long as there is
   * one: replacing it by any other value, NULL included, leaves the result alone.
   */
  lemma OtherColumnValuesIgnored(row: BinlogRow, k: nat, v: BinlogValue)
    requires k < |row.cells| && !IsIdColumn(row, k) && ValueAt(row, k).Some?
    ensures Conversion(row.(cells := row.cells[k := Cell(row.cells[k].name, Some(v))])) == Conversion(row)
  {
    ConvertFromIgnoresOtherColumn(row, 0, NIL, k, v);
  }
}
