/**
 * `handle_binlog_event`: classify one event, resolve a row event's table
 * through the stream's table map, skip the heartbeat table and convert the
 * after image of every other row, stopping at the first error.
 */
module EventDispatch {
  import opened BinlogTypes
  import opened RowConvert
  import UuidValue

  /** The table whose row events carry no data of interest. */
  const HEARTBEAT_TABLE: string := "heartbeat"

  /**
   * What handling an event amounts to: its result and the rows handed to
   * `convert`, in the order they were handed over.
   */
  datatype Dispatch = Dispatch(result: Result<()>, converted: seq<BinlogRow>)

  /** `d` with `converted` handed to `convert` ahead of its own rows. */
  function Prepend(converted: seq<BinlogRow>, d: Dispatch): Dispatch {
    Dispatch(d.result, converted + d.converted)
  }

  predicate IsRowsEvent(event: Event) {
    event.Event? && event.data.Some? && event.data.value.RowsEvent?
  }

  /** A row item that is read, has an after image and converts. */
  predicate RowOk(item: RowItem) {
    item.Row? && item.after.Some? && Conversion(item.after.value).Ok?
  }

  /** The row item hands a row to `convert`. */
  predicate RowConverted(item: RowItem) {
    item.Row? && item.after.Some?
  }

  /** The error a row item that is not `RowOk` reports. */
  function RowError(item: RowItem): Error
    requires !RowOk(item)
  {
    match item
    case RowReadFailed => RowReadError
    case Row(_, after) =>
      if after.None? then RowWasNone else Conversion(after.value).error
  }

  /** The loop over the rows of a row event, with its early exit. */
  function ProcessRows(rows: seq<RowItem>): Dispatch {
    if rows == [] then Dispatch(Ok(()), [])
    else if !RowOk(rows[0]) then
      Dispatch(Err(RowError(rows[0])), if RowConverted(rows[0]) then [rows[0].after.value] else [])
    else Prepend([rows[0].after.value], ProcessRows(rows[1..]))
  }

  /** What `handle_binlog_event` does with `event` when the stream's table map is `tables`. */
  function Handle(event: Event, tables: map<nat, TableInfo>): Dispatch {
    match event
    case Unreadable => Dispatch(Err(EventDataUnreadable), [])
    case Event(None) => Dispatch(Ok(()), [])
    case Event(Some(OtherEventData)) => Dispatch(Ok(()), [])
    case Event(Some(RowsEvent(tableId, rows))) =>
      if tableId !in tables then Dispatch(Err(NoTableMap), [])
      else if tables[tableId].tableName == HEARTBEAT_TABLE then Dispatch(Ok(()), [])
      else ProcessRows(rows)
  }

  /**
   * `handle_binlog_event`. The ghost `converted` records the rows handed to
   * `convert`; the record `convert` returns is not used by the program.
   */
  method HandleEvent(event: Event, tables: map<nat, TableInfo>) returns (r: Result<()>, ghost converted: seq<BinlogRow>)
    ensures r == Handle(event, tables).result
    ensures converted == Handle(event, tables).converted
  {
    if event.Unreadable? {
      return Err(EventDataUnreadable), [];
    }
    if event.data.Some? && event.data.value.RowsEvent? {
      var tableId, rows := event.data.value.tableId, event.data.value.rows;
      if tableId !in tables {
        return Err(NoTableMap), [];
      }
      if tables[tableId].tableName == HEARTBEAT_TABLE {
        return Ok(()), [];
      }
      converted := [];
      for i := 0 to |rows|
        invariant ProcessRows(rows) == Prepend(converted, ProcessRows(rows[i..]))
      {
        assert rows[i..][0] == rows[i] && rows[i..][1..] == rows[i + 1..];
        var item := rows[i];
        if item.RowReadFailed? {
          return Err(RowReadError), converted;
        }
        if item.after.None? {
          return Err(RowWasNone), converted;
        }
        var example := Convert(item.after.value);
        converted := converted + [item.after.value];
        if example.Err? {
          return Err(example.error), converted;
        }
      }
      return Ok(()), converted;
    }
    return Ok(()), [];
  }

  lemma {:induction false} ProcessRowsOkIff(rows: seq<RowItem>)
    ensures ProcessRows(rows).result.Ok? <==> forall i :: 0 <= i < |rows| ==> RowOk(rows[i])
  {
    if rows != [] && RowOk(rows[0]) {
      ProcessRowsOkIff(rows[1..]);
      assert forall i :: 1 <= i < |rows| ==> rows[i] == rows[1..][i - 1];
    }
  }

  lemma {:induction false} ProcessRowsAllConverted(rows: seq<RowItem>)
    requires forall i :: 0 <= i < |rows| ==> RowOk(rows[i])
    ensures |ProcessRows(rows).converted| == |rows|
    ensures forall i :: 0 <= i < |rows| ==> rows[i].Row? && rows[i].after == Some(ProcessRows(rows).converted[i])
  {
    if rows != [] {
      assert forall i :: 1 <= i < |rows| ==> rows[i] == rows[1..][i - 1];
      ProcessRowsAllConverted(rows[1..]);
    }
  }

  lemma {:induction false} ProcessRowsFirstError(rows: seq<RowItem>, k: nat)
    requires k < |rows| && !RowOk(rows[k])
    requires forall i :: 0 <= i < k ==> RowOk(rows[i])
    ensures ProcessRows(rows).result == Err(RowError(rows[k]))
    ensures |ProcessRows(rows).converted| == k + (if RowConverted(rows[k]) then 1 else 0)
    ensures forall i :: 0 <= i < k ==> rows[i].Row? && rows[i].after == Some(ProcessRows(rows).converted[i])
    ensures RowConverted(rows[k]) ==> ProcessRows(rows).converted[k] == rows[k].after.value
  {
    if k > 0 {
      assert forall i :: 1 <= i < |rows| ==> rows[i] == rows[1..][i - 1];
      ProcessRowsFirstError(rows[1..], k - 1);
    }
  }

  lemma {:induction false} ProcessRowsConvertsAfterImages(rows: seq<RowItem>)
    ensures forall c :: c in ProcessRows(rows).converted ==>
      exists i :: 0 <= i < |rows| && rows[i].Row? && rows[i].after == Some(c)
  {
    if rows != [] && RowOk(rows[0]) {
      ProcessRowsConvertsAfterImages(rows[1..]);
      assert forall i :: 1 <= i < |rows| ==> rows[i] == rows[1..][i - 1];
    }
  }

  /**
   * A row event succeeds exactly when every row item is read, has an after
   * image and converts; then every after image is converted once, in order.
   */
  lemma RowsEventSucceeds(event: Event, tables: map<nat, TableInfo>)
    requires IsRowsEvent(event)
    requires event.data.value.tableId in tables
    requires tables[event.data.value.tableId].tableName != HEARTBEAT_TABLE
    ensures var rows := event.data.value.rows;
      Handle(event, tables).result.Ok? <==> forall i :: 0 <= i < |rows| ==> RowOk(rows[i])
    ensures var rows := event.data.value.rows;
      (forall i :: 0 <= i < |rows| ==> RowOk(rows[i])) ==>
        |Handle(event, tables).converted| == |rows| &&
        forall i :: 0 <= i < |rows| ==> Handle(event, tables).converted[i] == rows[i].after.value
  {
    var rows := event.data.value.rows;
    ProcessRowsOkIff(rows);
    if forall i :: 0 <= i < |rows| ==> RowOk(rows[i]) {
      ProcessRowsAllConverted(rows);
    }
  }

  /**
   * The first row item that is not read, has no after image or does not
   * convert decides the error; the rows after it are never converted.
   */
  lemma RowsEventStopsAtFirstError(event: Event, tables: map<nat, TableInfo>, k: nat)
    requires IsRowsEvent(event)
    requires event.data.value.tableId in tables
    requires tables[event.data.value.tableId].tableName != HEARTBEAT_TABLE
    requires k < |event.data.value.rows| && !RowOk(event.data.value.rows[k])
    requires forall i :: 0 <= i < k ==> RowOk(event.data.value.rows[i])
    ensures Handle(event, tables).result == Err(RowError(event.data.value.rows[k]))
    ensures var rows := event.data.value.rows; var c := Handle(event, tables).converted;
      |c| == k + (if RowConverted(rows[k]) then 1 else 0) &&
      forall i :: 0 <= i < |c| ==> rows[i].Row? && rows[i].after == Some(c[i])
  {
    ProcessRowsFirstError(event.data.value.rows, k);
  }

  /** An event that is not a row event succeeds without consulting the table map or converting anything. */
  lemma NonRowEventIgnored(event: Event, tables: map<nat, TableInfo>, other: map<nat, TableInfo>)
    requires event.Event? && !IsRowsEvent(event)
    ensures Handle(event, tables) == Dispatch(Ok(()), [])
    ensures Handle(event, tables) == Handle(event, other)
  {
  }

  /** A row event for a table id the table map does not know fails before any row is converted. */
  lemma UnknownTableFails(event: Event, tables: map<nat, TableInfo>)
    requires IsRowsEvent(event) && event.data.value.tableId !in tables
    ensures Handle(event, tables) == Dispatch(Err(NoTableMap), [])
  {
  }

  /** Row events of the heartbeat table, in any database, succeed with nothing converted. */
  lemma HeartbeatSkipped(event: Event, tables: map<nat, TableInfo>)
    requires IsRowsEvent(event) && event.data.value.tableId in tables
    requires tables[event.data.value.tableId].tableName == HEARTBEAT_TABLE
    ensures Handle(event, tables) == Dispatch(Ok(()), [])
  {
  }

  /**
   * Whatever an event hands to `convert` is the after image of one of its
   * rows, from a row event of a known table other than the heartbeat table.
   */
  lemma ConvertedRowsComeFromEvent(event: Event, tables: map<nat, TableInfo>)
    requires |Handle(event, tables).converted| > 0
    ensures IsRowsEvent(event) && event.data.value.tableId in tables
    ensures tables[event.data.value.tableId].tableName != HEARTBEAT_TABLE
    ensures forall c :: c in Handle(event, tables).converted ==>
      exists i :: 0 <= i < |event.data.value.rows| &&
        event.data.value.rows[i].Row? && event.data.value.rows[i].after == Some(c)
  {
    ProcessRowsConvertsAfterImages(event.data.value.rows);
  }

  /** Only a row event can fail with `NoTableMap`, and only when its table id has no table-map entry. */
  lemma NoTableMapOnlyForUnknownTable(event: Event, tables: map<nat, TableInfo>)
    requires Handle(event, tables).result == Err(NoTableMap)
    ensures IsRowsEvent(event) && event.data.value.tableId !in tables
  {
    if IsRowsEvent(event) && event.data.value.tableId in tables
      && tables[event.data.value.tableId].tableName != HEARTBEAT_TABLE
    {
      ProcessRowsNeverNoTableMap(event.data.value.rows);
    }
  }

  lemma {:induction false} ProcessRowsNeverNoTableMap(rows: seq<RowItem>)
    ensures ProcessRows(rows).result != Err(NoTableMap)
  {
    if rows != [] {
      if !RowOk(rows[0]) {
        if rows[0].Row? && rows[0].after.Some? {
          ConversionNeverNoTableMap(rows[0].after.value);
        }
      } else {
        ProcessRowsNeverNoTableMap(rows[1..]);
      }
    }
  }

  lemma ConversionNeverNoTableMap(row: BinlogRow)
    ensures Conversion(row) != Err(NoTableMap)
  {
    ConvertFromNeverNoTableMap(row, 0, UuidValue.NIL);
  }

  lemma {:induction false} ConvertFromNeverNoTableMap(row: BinlogRow, i: nat, id: UuidValue.Uuid)
    requires i <= |row.cells|
    ensures ConvertFrom(row, i, id) != Err(NoTableMap)
    decreases |row.cells| - i
  {
    if i < |row.cells| && !ColumnFails(row, i) {
      ConvertFromNeverNoTableMap(row, i + 1, if IsIdColumn(row, i) then ColumnId(row, i) else id);
    }
  }
}
