# mysql-binlog-repro in Dafny

This project models the decision logic of a small MySQL replication client.
The client asks the server for its binary logs and starts a binlog stream at
the last one. It then walks the stream event by event. Every row event is
resolved to its table through the stream's table map. Row events of the
`heartbeat` table are skipped. Every other row's after image is converted
into a record whose `id` is the 16-byte UUID held in the column named `@0`.

Modules, one per part of `src/main.rs`:

- `BinlogTypes` (`types.dfy`): integer widths, binlog values, rows, row items, events, table-map entries, errors.
- `UuidValue` (`uuid.dfy`): the 16-byte identifier, `Uuid::from_slice`, and `value_as_uuid`.
- `RowConvert` (`convert.dfy`): `UuidExample::convert`. It is a method with a loop, proved against the function `Conversion`.
- `EventDispatch` (`dispatch.dfy`): `handle_binlog_event`. It is a method with a loop over the rows, proved against the function `Handle`.
- `ReplicationMain` (`session.dfy`): start-position selection and the `while let` loop of `main`. One method holds both, proved against the function `Session`.

The method `HandleEvent` also returns a ghost sequence `converted`. It lists the rows handed to
`convert`, in order. The lemmas use it to state which rows are converted: none for a skipped event, and none after the first error.

## Model

| member | source | states |
|---|---|---|
| `UuidValue.FromSlice` | src/main.rs:116-119 | a slice is accepted exactly when it is 16 bytes long, and the identifier keeps those bytes |
| `UuidValue.FromSliceAsBytes` | src/main.rs:116-120 | decoding an identifier's own bytes gives the identifier back |
| `UuidValue.AsBytesFromSlice` | src/main.rs:116-120 | an accepted slice is reproduced exactly by the identifier's bytes |
| `UuidValue.ValueAsUuid` | src/main.rs:112-124 | succeeds exactly for a `Bytes` payload of length 16, and the result's bytes are the payload; a `Bytes` payload of any other length gives the parse error carrying the bytes; every other value gives the "not a uuid" error |
| `UuidValue.NullIsNotAUuid` | src/main.rs:121-123 | a NULL value is not an identifier |
| `RowConvert.Convert` | src/main.rs:55-74 | the column loop with its early returns computes exactly `Conversion(row)` |
| `RowConvert.ConversionFailsIff` | src/main.rs:61-71 | conversion fails exactly when some column has no value, or is named `@0` and does not decode |
| `RowConvert.ConversionFirstError` | src/main.rs:62-70 | the error reported is the error of the first failing column |
| `RowConvert.MissingValueFails` | src/main.rs:63-65 | a column with no value makes the conversion fail, whatever the column's name |
| `RowConvert.ConversionWithoutIdColumn` | src/main.rs:56-59 | a successful conversion of a row with no `@0` column leaves `id` at the nil UUID |
| `RowConvert.ConversionTakesLastIdColumn` | src/main.rs:67-70 | on success, `id` is the UUID decoded from the last `@0` column |
| `RowConvert.OtherColumnValuesIgnored` | src/main.rs:62-71 | replacing the present value of a column not named `@0` by any other value, NULL included, does not change the result |
| `EventDispatch.HandleEvent` | src/main.rs:84-109 | the event handler's result and the rows it converts are exactly those of `Handle(event, tables)` |
| `EventDispatch.NonRowEventIgnored` | src/main.rs:88-108 | a readable event that is not a row event gives `Ok(())`; it converts nothing and does not depend on the table map |
| `EventDispatch.UnknownTableFails` | src/main.rs:92-94 | a row event whose table id has no table-map entry fails with the missing-table-map error and converts no row |
| `EventDispatch.NoTableMapOnlyForUnknownTable` | src/main.rs:92-94 | the missing-table-map error arises only from a row event whose table id is absent from the map |
| `EventDispatch.HeartbeatSkipped` | src/main.rs:95-98 | a row event of the table named exactly `heartbeat` gives `Ok(())` and converts nothing |
| `EventDispatch.RowsEventSucceeds` | src/main.rs:100-108 | for any other known table, the event succeeds exactly when every row item is read, has an after image and converts; then every after image is converted once, in order |
| `EventDispatch.RowsEventStopsAtFirstError` | src/main.rs:100-104 | the first row item that is unreadable, has no after image or fails to convert decides the error; the rows converted are exactly the after images of the rows before it, in order, followed by that row's after image when it has one, so no later row is converted |
| `EventDispatch.ConvertedRowsComeFromEvent` | src/main.rs:90-104 | every converted row is the after image of one of the event's rows, from a row event of a known table other than `heartbeat` |
| `ReplicationMain.AsU64` | src/main.rs:39 | the `i64` to `u64` cast is the position taken modulo 2^64 |
| `ReplicationMain.AsU64Injective` | src/main.rs:39 | the cast loses nothing: distinct positions give distinct `u64` positions, and a non-negative position is unchanged |
| `ReplicationMain.SelectStart` | src/main.rs:29-39 | an empty list gives the "No binlogs found" error; otherwise the request has the last entry's filename and its position cast to `u64` |
| `ReplicationMain.SelectStartIgnoresEarlierLogs` | src/main.rs:33 | entries before the last do not affect the request |
| `ReplicationMain.SelectStartExample` | src/main.rs:29-39 | for `[("log.1",100,""),("log.2",500,"")]` the request is `("log.2", 500)` |
| `ReplicationMain.FirstTransportError` | src/main.rs:42-43 | the index returned is the first stream error, or the stream's length when there is none |
| `ReplicationMain.Run` | src/main.rs:29-48 | `main` after connecting: its result and the errors it prints are exactly those of `Session(positions, open)` |
| `ReplicationMain.NoBinlogsNoStream` | src/main.rs:29-31 | with no logs, `main` fails with "No binlogs found" and never opens a stream |
| `ReplicationMain.StreamOpenedAtLastLog` | src/main.rs:33-41 | the session depends on how the stream opens only at the request built from the last log |
| `ReplicationMain.ConsumeOkIff` | src/main.rs:42-48 | the loop ends with `Ok` exactly when the stream yields no error item |
| `ReplicationMain.ConsumeWithoutTransportError` | src/main.rs:42-48 | without stream errors, every event is handled and every handler error is printed |
| `ReplicationMain.TransportErrorEndsLoop` | src/main.rs:43 | a stream error ends `main` with an error; only the events before it are handled, and what follows it is never looked at |
| `ReplicationMain.HandlerErrorsDoNotStopLoop` | src/main.rs:42-46 | a handler error is printed and the loop goes on: handling a run of events and then the rest gives the rest's result, with the run's errors printed first |
| `ReplicationMain.KnownTablesNeverMissTableMap` | src/main.rs:92-94 | if every row event's table is in the table map when the event arrives, the missing-table-map error is never printed |

## Left out

- The Tokio runtime, `async`/`await`, the connection pool and URL parsing (src/main.rs:8-14) are runtime and I/O plumbing.
- The `SHOW BINARY LOGS` query (src/main.rs:17-26) is a database round trip. Its rows are the input list of `SelectStart` and `Run`.
- `get_binlog_stream` (src/main.rs:41) is the function parameter `open` of `Run`. It yields a failure or a finite sequence of stream items. The real stream is unbounded; the model covers every finite prefix of it.
- `mysql_async` wire parsing is not modelled. This covers `read_data`, `rows(table_map)` and the column metadata they use. Events arrive already parsed, and row items arrive already decoded.
- The table map kept by the stream (`get_tme`) is not modelled inside. Each delivered item carries the map in force when it was read. How table-map events update that map is library code and is not modelled.
- `BinlogStreamRequest::with_filename` receives the filename's UTF-8 bytes. The model keeps the filename as text, because the encoding never affects a decision.
- The `encrypted` column of `SHOW BINARY LOGS` is carried but never used, as in the source.
- The integer payloads are carried but never inspected, as in the source. The payloads of the floating-point, date, time and JSON values are not modelled. No decision depends on any of them.
- `uuid::Uuid` internals beyond the exactly-16-bytes rule and the byte round trip are not modelled.
- `println!` (src/main.rs:44) is modelled as the `log` output: each handler error is appended to it in order.
- The record that `convert` returns in `handle_binlog_event` (src/main.rs:104) is unused. Only success or failure is modelled.
- The error messages are modelled as one `Error` constructor per failure site. Their text and `Debug` formatting are not modelled.

## Notes on the code

- The code selects the last log the server reports and does not compare positions. `SelectStartIgnoresEarlierLogs` states this.
- A row item's after image is what gets converted. A delete event carries no after image, so every delete of a non-heartbeat table fails with "binlog row was none!".
- Row values and columns are modelled as one cell per column. The library can also give no value for an index past the end of the values. The model treats that as a column whose value is absent.
- The heartbeat test compares only the table name. A `heartbeat` table in any database is therefore skipped.
