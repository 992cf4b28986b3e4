/**
 * The values the replication client works on: the integer widths of its
 * fields, the binlog values a row carries, rows, row events, the table-map
 * entries the stream keeps, and the errors the program reports.
 */
module BinlogTypes {

  type byte = x: int | 0 <= x < 256

  const TWO_TO_THE_63: int := 0x8000_0000_0000_0000
  const TWO_TO_THE_64: int := 0x1_0000_0000_0000_0000

  /** Rust's `i64`. */
  type i64 = x: int | -TWO_TO_THE_63 <= x < TWO_TO_THE_63

  /** Rust's `u64`. */
  type u64 = x: int | 0 <= x < TWO_TO_THE_64

  datatype Option<T> = None | Some(value: T)

  /**
   * `mysql_async::Value`. Only `Bytes` is inspected by the program; the
   * payloads of the numeric, floating-point and temporal variants are not.
   */
  datatype SqlValue =
    | Null
    | Bytes(bytes: seq<byte>)
    | Int(i: i64)
    | UInt(u: u64)
    | Float
    | Double
    | Date
    | Time

  /** `mysql_async::binlog::value::BinlogValue`: a plain value or one of the JSON forms. */
  datatype BinlogValue = Value(v: SqlValue) | Jsonb | JsonDiff

  /** One column of a decoded row: its name and the value `as_ref` yields for it. */
  datatype Cell = Cell(name: string, value: Option<BinlogValue>)

  /** A decoded binlog row, one cell per column of the row's table. */
  datatype BinlogRow = BinlogRow(cells: seq<Cell>)

  /**
   * One item of the iterator `rows_event.rows(table_map)`: either a read
   * failure or the row's before and after images.
   */
  datatype RowItem = RowReadFailed | Row(before: Option<BinlogRow>, after: Option<BinlogRow>)

  /** The body of an event, as far as the program tells them apart. */
  datatype EventData = RowsEvent(tableId: nat, rows: seq<RowItem>) | OtherEventData

  /**
   * A binlog event: `read_data` either fails (`Unreadable`) or yields an
   * optional body.
   */
  datatype Event = Unreadable | Event(data: Option<EventData>)

  /** The table-map entry the stream holds for a table id. */
  datatype TableInfo = TableInfo(databaseName: string, tableName: string)

  /** Every error the program can report, one constructor per failure site. */
  datatype Error =
    | NoBinlogsFound           // `SHOW BINARY LOGS` returned no rows
    | StreamOpenFailed         // `get_binlog_stream` failed
    | StreamItemFailed         // the stream yielded an error instead of an event
    | EventDataUnreadable      // `event.read_data()` failed
    | NoTableMap               // no table-map entry for the row event's table id
    | RowReadError             // the rows iterator yielded an error
    | RowWasNone               // the row item has no after image
    | ValueWasNone             // a column of the row has no value
    | UuidParse(bytes: seq<byte>)          // a byte payload that is not 16 bytes long
    | NotAUuid(value: BinlogValue)         // a value that is not a byte payload

  datatype Result<T> = Ok(value: T) | Err(error: Error)
}
