/**
 * The body of `main` once the connection is up: choose the position to
 * stream from, open the stream there, and hand every event to the
 * dispatcher, reporting handler errors and carrying on, until the stream
 * ends or yields an error.
 */
module ReplicationMain {
  import opened BinlogTypes
  import opened EventDispatch

  /** One row of `SHOW BINARY LOGS`. */
  datatype BinLogPosition = BinLogPosition(filename: string, position: i64, encrypted: string)

  /** The fields of `BinlogStreamRequest` the program sets. */
  datatype StreamRequest = StreamRequest(filename: string, pos: u64)

  /** One item of the binlog stream: an error, or an event with the table map in force when it was read. */
  datatype StreamItem = TransportError | Delivered(event: Event, tables: map<nat, TableInfo>)

  /** The outcome of `get_binlog_stream`: a failure, or the items the stream yields. */
  datatype Stream = OpenFailed | Opened(items: seq<StreamItem>)

  /** What `main` returns, with the handler errors it printed, in order. */
  datatype Outcome = Outcome(result: Result<()>, log: seq<Error>)

  /** Rust's `x as u64` on an `i64`: the two's-complement bits read as unsigned. */
  function AsU64(x: i64): (r: u64)
    ensures r == x % TWO_TO_THE_64
  {
    if x < 0 then x + TWO_TO_THE_64 else x
  }

  /** The cast loses nothing: distinct positions give distinct requests, and a non-negative one is unchanged. */
  lemma AsU64Injective(x: i64, y: i64)
    ensures AsU64(x) == AsU64(y) ==> x == y
    ensures x >= 0 ==> AsU64(x) == x
  {
  }

  /**
   * Start-position selection: no logs is an error; otherwise the stream
   * starts in the last log reported, at its position cast to `u64`.
   */
  function SelectStart(positions: seq<BinLogPosition>): (r: Result<StreamRequest>)
    ensures r.Err? <==> positions == []
    ensures r.Err? ==> r.error == NoBinlogsFound
    ensures r.Ok? ==> r.value.filename == positions[|positions| - 1].filename
    ensures r.Ok? ==> r.value.pos == AsU64(positions[|positions| - 1].position)
  {
    if positions == [] then Err(NoBinlogsFound)
    else
      var last := positions[|positions| - 1];
      Ok(StreamRequest(last.filename, AsU64(last.position)))
  }

  /** Only the last reported log matters: no ordering of the list is done. */
  lemma SelectStartIgnoresEarlierLogs(earlier: seq<BinLogPosition>, last: BinLogPosition)
    ensures SelectStart(earlier + [last]) == SelectStart([last])
  {
  }

  lemma SelectStartExample()
    ensures SelectStart([BinLogPosition("log.1", 100, ""), BinLogPosition("log.2", 500, "")])
      == Ok(StreamRequest("log.2", 500))
  {
  }

  /** The index of the first transport error, or the length of the stream when there is none. */
  function FirstTransportError(items: seq<StreamItem>): (k: nat)
    ensures k <= |items|
    ensures k < |items| ==> items[k].TransportError?
    ensures forall j :: 0 <= j < k ==> !items[j].TransportError?
  {
    if items == [] || items[0].TransportError? then 0
    else 1 + FirstTransportError(items[1..])
  }

  /** What one stream item adds to the printed errors. */
  function LogEntry(item: StreamItem): seq<Error> {
    if item.Delivered? && Handle(item.event, item.tables).result.Err? then
      [Handle(item.event, item.tables).result.error]
    else []
  }

  /** The handler errors printed for a run of stream items, in order. */
  function HandlerLog(items: seq<StreamItem>): seq<Error> {
    if items == [] then [] else LogEntry(items[0]) + HandlerLog(items[1..])
  }

  /**
   * The loop over the stream: it runs to the first transport error, which
   * ends `main` with an error, or to the end of the stream, and prints the
   * errors of every event handled before that.
   */
  function Consume(items: seq<StreamItem>): Outcome {
    var k := FirstTransportError(items);
    Outcome(if k < |items| then Err(StreamItemFailed) else Ok(()), HandlerLog(items[..k]))
  }

  /** `main` after the connection is made, with `open` standing for `get_binlog_stream`. */
  function Session(positions: seq<BinLogPosition>, open: StreamRequest -> Stream): Outcome {
    match SelectStart(positions)
    case Err(e) => Outcome(Err(e), [])
    case Ok(request) =>
      match open(request)
      case OpenFailed => Outcome(Err(StreamOpenFailed), [])
      case Opened(items) => Consume(items)
  }

  /** `main` from `SHOW BINARY LOGS` on. */
  method Run(positions: seq<BinLogPosition>, open: StreamRequest -> Stream) returns (r: Result<()>, log: seq<Error>)
    ensures Outcome(r, log) == Session(positions, open)
  {
    var start := SelectStart(positions);
    if start.Err? {
      return Err(start.error), [];
    }
    var stream := open(start.value);
    if stream.OpenFailed? {
      return Err(StreamOpenFailed), [];
    }
    var items := stream.items;
    var i := 0;
    log := [];
    while i < |items|
      invariant 0 <= i <= |items|
      invariant forall j :: 0 <= j < i ==> !items[j].TransportError?
      invariant log == HandlerLog(items[..i])
    {
      var item := items[i];
      if item.TransportError? {
        assert FirstTransportError(items) == i;
        return Err(StreamItemFailed), log;
      }
      var handled;
      ghost var converted;
      handled, converted := HandleEvent(item.event, item.tables);
      if handled.Err? {
        log := log + [handled.error];
      }
      HandlerLogAppend(items[..i], [item]);
      assert items[..i + 1] == items[..i] + [item];
      i := i + 1;
    }
    assert items[..i] == items;
    return Ok(()), log;
  }

  lemma {:induction false} HandlerLogAppend(a: seq<StreamItem>, b: seq<StreamItem>)
    ensures HandlerLog(a + b) == HandlerLog(a) + HandlerLog(b)
  {
    if a == [] {
      assert a + b == b;
    } else {
      assert (a + b)[0] == a[0] && (a + b)[1..] == a[1..] + b;
      HandlerLogAppend(a[1..], b);
    }
  }

  /** No logs reported: `main` fails with "No binlogs found" and no stream is opened. */
  lemma NoBinlogsNoStream(open: StreamRequest -> Stream, other: StreamRequest -> Stream)
    ensures Session([], open) == Outcome(Err(NoBinlogsFound), [])
    ensures Session([], open) == Session([], other)
  {
  }

  /** The stream is opened at the request built from the last reported log, and at nothing else. */
  lemma StreamOpenedAtLastLog(positions: seq<BinLogPosition>, open: StreamRequest -> Stream, other: StreamRequest -> Stream)
    requires positions != []
    requires var last := positions[|positions| - 1];
      open(StreamRequest(last.filename, AsU64(last.position))) == other(StreamRequest(last.filename, AsU64(last.position)))
    ensures Session(positions, open) == Session(positions, other)
  {
  }

  /** `main` ends with `Ok` exactly when the stream ends without a transport error. */
  lemma ConsumeOkIff(items: seq<StreamItem>)
    ensures Consume(items).result.Ok? <==> forall j :: 0 <= j < |items| ==> !items[j].TransportError?
  {
    var k := FirstTransportError(items);
    if k < |items| {
      assert items[k].TransportError?;
    }
  }

  /** Every event is handled and every handler error printed, whatever errors came before. */
  lemma ConsumeWithoutTransportError(items: seq<StreamItem>)
    requires forall j :: 0 <= j < |items| ==> !items[j].TransportError?
    ensures Consume(items).result == Ok(())
    ensures Consume(items).log == HandlerLog(items)
  {
    assert items[..|items|] == items;
  }

  /**
   * A transport error ends the loop: what follows it in the stream is never
   * handled, and the errors printed are those of the events before it.
   */
  lemma TransportErrorEndsLoop(items: seq<StreamItem>, k: nat, later: seq<StreamItem>)
    requires k < |items| && items[k].TransportError?
    requires forall j :: 0 <= j < k ==> !items[j].TransportError?
    ensures Consume(items) == Outcome(Err(StreamItemFailed), HandlerLog(items[..k]))
    ensures Consume(items[..k + 1] + later) == Consume(items)
  {
    assert FirstTransportError(items) == k;
    var cut := items[..k + 1] + later;
    assert cut[k] == items[k];
    assert forall j :: 0 <= j < k ==> cut[j] == items[j];
    assert FirstTransportError(cut) == k;
    assert cut[..k] == items[..k];
  }

  /** A handler error does not stop the loop: the events after it are handled just the same. */
  lemma {:induction false} HandlerErrorsDoNotStopLoop(handled: seq<StreamItem>, rest: seq<StreamItem>)
    requires forall j :: 0 <= j < |handled| ==> !handled[j].TransportError?
    ensures Consume(handled + rest).result == Consume(rest).result
    ensures Consume(handled + rest).log == HandlerLog(handled) + Consume(rest).log
  {
    if handled == [] {
      assert handled + rest == rest;
    } else {
      var tail := handled[1..] + rest;
      assert handled + rest == [handled[0]] + tail;
      HandlerErrorsDoNotStopLoop(handled[1..], rest);
      ConsumeCons(handled[0], tail);
    }
  }

  /** Handling one event and then the rest of the stream. */
  lemma ConsumeCons(item: StreamItem, rest: seq<StreamItem>)
    requires !item.TransportError?
    ensures Consume([item] + rest).result == Consume(rest).result
    ensures Consume([item] + rest).log == LogEntry(item) + Consume(rest).log
  {
    var all := [item] + rest;
    var k := FirstTransportError(rest);
    assert all[1..] == rest;
    assert FirstTransportError(all) == 1 + k;
    assert all[..1 + k] == [item] + rest[..k];
    assert HandlerLog([item] + rest[..k]) == LogEntry(item) + HandlerLog(rest[..k]) by {
      assert ([item] + rest[..k])[1..] == rest[..k];
    }
  }

  predicate TableKnown(item: StreamItem) {
    item.Delivered? && IsRowsEvent(item.event) ==> item.event.data.value.tableId in item.tables
  }

  lemma {:induction false} HandlerLogKnownTables(items: seq<StreamItem>)
    requires forall j :: 0 <= j < |items| ==> TableKnown(items[j])
    ensures NoTableMap !in HandlerLog(items)
  {
    if items != [] {
      if items[0].Delivered? && Handle(items[0].event, items[0].tables).result.Err? {
        if Handle(items[0].event, items[0].tables).result.error == NoTableMap {
          NoTableMapOnlyForUnknownTable(items[0].event, items[0].tables);
        }
      }
      assert forall j :: 1 <= j < |items| ==> items[j] == items[1..][j - 1];
      HandlerLogKnownTables(items[1..]);
    }
  }

  /**
   * When the table map always knows the table of a row event by the time the
   * event arrives, no event is reported for a missing table map.
   */
  lemma KnownTablesNeverMissTableMap(items: seq<StreamItem>)
    requires forall j :: 0 <= j < |items| ==> TableKnown(items[j])
    ensures NoTableMap !in Consume(items).log
  {
    var k := FirstTransportError(items);
    assert forall j :: 0 <= j < k ==> items[..k][j] == items[j];
    HandlerLogKnownTables(items[..k]);
  }
}
