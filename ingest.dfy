/**
 * The queue consumer of the health ingest stack: for a batch of queue records
 * it inserts one weight row per record inside one transaction, commits once,
 * and only then deletes each message by its receipt handle. Any exception
 * raised after the database credentials are read makes the handler answer 500.
 */
module HealthIngest {
  import opened Wrappers

  /** A calendar day, as the DATE column holds it. */
  type Date = int

  /** A row of the weight table (its SERIAL id is left out). */
  datatype WeightRow = WeightRow(date: Date, weight: real)

  /** The table's `CHECK (weight < 300 AND weight > 0)`. */
  predicate WeightAllowed(w: real) {
    w < 300.0 && w > 0.0
  }

  predicate HasDate(rows: seq<WeightRow>, d: Date) {
    exists i :: 0 <= i < |rows| && rows[i].date == d
  }

  /** The weight table's constraints: `date` UNIQUE, `weight` passes the CHECK. */
  predicate ValidTable(rows: seq<WeightRow>) {
    && (forall i :: 0 <= i < |rows| ==> WeightAllowed(rows[i].weight))
    && (forall i, j :: 0 <= i < j < |rows| ==> rows[i].date != rows[j].date)
  }

  /** A value bound to a statement placeholder. */
  datatype SqlValue = Text(text: string) | Number(number: real)

  /** A message body after `json.loads`: the three keys the handler looks up,
      each of which may be missing. */
  datatype MessageBody = MessageBody(id: Option<string>, value: Option<real>, timestamp: Option<string>)

  /** A record of the SQS event. */
  datatype QueueRecord = QueueRecord(body: string, receiptHandle: string)

  datatype IngestError =
    | MalformedBody(body: string)     // json.loads raised
    | MissingKey(key: string)         // message[key] raised KeyError
    | ArgumentCount(given: nat)       // values bound do not match the placeholders
    | WrongType                       // a value of the wrong kind for its column; `BindParams`
                                      // never builds one, `InsertWeight` is total over any tuple
    | InvalidDate(text: string)       // the server could not read the text as a DATE
    | CheckViolation(weight: real)
    | UniqueViolation(date: Date)
    | ConnectFailed
    | CommitFailed
    | DeleteFailed(handle: string)

  /** `INSERT INTO weight (date, weight) VALUES (%s, %s)` has two placeholders. */
  const InsertPlaceholders := 2

  /** Which values the handler binds to the insert: as the source is written
      (`id`, `value` and `timestamp`), or the two its statement expects. */
  datatype Binding = AsWritten | TwoValues

  /** The parameter tuple, built key by key from left to right, so the first
      missing key is the one reported. */
  function BindParams(b: Binding, m: MessageBody): (r: Result<seq<SqlValue>, IngestError>)
    ensures r.Failure? <==> m.id.None? || m.value.None? || (b.AsWritten? && m.timestamp.None?)
    ensures m.id.None? ==> r == Failure(MissingKey("id"))
    ensures m.id.Some? && m.value.None? ==> r == Failure(MissingKey("value"))
    ensures m.id.Some? && m.value.Some? && b.AsWritten? && m.timestamp.None? ==> r == Failure(MissingKey("timestamp"))
    ensures r.Success? && b.TwoValues? ==> r.value == [Text(m.id.value), Number(m.value.value)]
    ensures r.Success? && b.AsWritten? ==> r.value == [Text(m.id.value), Number(m.value.value), Text(m.timestamp.value)]
    ensures r.Success? && b.AsWritten? ==> |r.value| == 3
    ensures r.Success? && b.TwoValues? ==> |r.value| == 2
  {
    if m.id.None? then Failure(MissingKey("id"))
    else if m.value.None? then Failure(MissingKey("value"))
    else if b == TwoValues then Success([Text(m.id.value), Number(m.value.value)])
    else if m.timestamp.None? then Failure(MissingKey("timestamp"))
    else Success([Text(m.id.value), Number(m.value.value), Text(m.timestamp.value)])
  }

  /** `cursor.execute` of the insert against the rows the transaction sees.
      The driver refuses a parameter count that does not match the
      placeholders before anything reaches the server; the server then casts
      the date, checks the weight and the uniqueness of the date. */
  function InsertWeight(table: seq<WeightRow>, params: seq<SqlValue>, castDate: string -> Option<Date>)
    : (r: Result<WeightRow, IngestError>)
    ensures r.Success? ==> |params| == InsertPlaceholders
    ensures r.Success? ==> WeightAllowed(r.value.weight) && !HasDate(table, r.value.date)
    ensures ValidTable(table) && r.Success? ==> ValidTable(table + [r.value])
  {
    if |params| != InsertPlaceholders then Failure(ArgumentCount(|params|))
    else if !params[0].Text? || !params[1].Number? then Failure(WrongType)
    else
      match castDate(params[0].text)
      case None => Failure(InvalidDate(params[0].text))
      case Some(d) =>
        var w := params[1].number;
        if !WeightAllowed(w) then Failure(CheckViolation(w))
        else if HasDate(table, d) then Failure(UniqueViolation(d))
        else Success(WeightRow(d, w))
  }

  /** One iteration of the insert loop: parse the body, bind, execute. */
  function InsertRecord(table: seq<WeightRow>, record: QueueRecord, parse: string -> Option<MessageBody>,
                        castDate: string -> Option<Date>, b: Binding): Result<WeightRow, IngestError>
  {
    match parse(record.body)
    case None => Failure(MalformedBody(record.body))
    case Some(m) =>
      match BindParams(b, m)
      case Failure(e) => Failure(e)
      case Success(params) => InsertWeight(table, params, castDate)
  }

  /** The insert loop over the batch, in delivery order, stopping at the first
      failure: on success, the rows the open transaction holds. */
  function Stage(table: seq<WeightRow>, records: seq<QueueRecord>, parse: string -> Option<MessageBody>,
                 castDate: string -> Option<Date>, b: Binding): Result<seq<WeightRow>, IngestError>
  {
    if records == [] then Success([])
    else StageStep(table, Stage(table, records[..|records| - 1], parse, castDate, b),
                   records[|records| - 1], parse, castDate, b)
  }

  /** The insert loop's step after the rows `staged` so far. */
  function StageStep(table: seq<WeightRow>, staged: Result<seq<WeightRow>, IngestError>, record: QueueRecord,
                     parse: string -> Option<MessageBody>, castDate: string -> Option<Date>, b: Binding)
    : Result<seq<WeightRow>, IngestError>
  {
    match staged
    case Failure(e) => Failure(e)
    case Success(rows) =>
      match InsertRecord(table + rows, record, parse, castDate, b)
      case Failure(e) => Failure(e)
      case Success(row) => Success(rows + [row])
  }

  lemma StageSnoc(table: seq<WeightRow>, records: seq<QueueRecord>, i: nat, parse: string -> Option<MessageBody>,
                  castDate: string -> Option<Date>, b: Binding)
    requires i < |records|
    ensures Stage(table, records[..i + 1], parse, castDate, b)
            == StageStep(table, Stage(table, records[..i], parse, castDate, b), records[i], parse, castDate, b)
  {
    assert records[..i + 1][..i] == records[..i];
  }

  /** Fail fast: once a prefix of the batch fails, the batch fails with that error. */
  lemma {:induction false} StageFailureSticks(table: seq<WeightRow>, records: seq<QueueRecord>, k: nat,
                                              parse: string -> Option<MessageBody>,
                                              castDate: string -> Option<Date>, b: Binding)
    requires k <= |records|
    requires Stage(table, records[..k], parse, castDate, b).Failure?
    ensures Stage(table, records, parse, castDate, b) == Stage(table, records[..k], parse, castDate, b)
    decreases |records| - k
  {
    if k < |records| {
      StageSnoc(table, records, k, parse, castDate, b);
      StageFailureSticks(table, records, k + 1, parse, castDate, b);
    } else {
      assert records[..k] == records;
    }
  }

  /** The open transaction keeps the table's constraints. */
  lemma {:induction false} StageKeepsTableValid(table: seq<WeightRow>, records: seq<QueueRecord>,
                                                parse: string -> Option<MessageBody>,
                                                castDate: string -> Option<Date>, b: Binding)
    requires ValidTable(table)
    requires Stage(table, records, parse, castDate, b).Success?
    ensures ValidTable(table + Stage(table, records, parse, castDate, b).value)
  {
    if records != [] {
      var prefix := records[..|records| - 1];
      StageKeepsTableValid(table, prefix, parse, castDate, b);
      var rows := Stage(table, prefix, parse, castDate, b).value;
      assert table + rows + [Stage(table, records, parse, castDate, b).value[|rows|]]
             == table + Stage(table, records, parse, castDate, b).value;
    }
  }

  /** The row a record asks for: its body's `id` read as a date and its `value`. */
  function RowOf(record: QueueRecord, parse: string -> Option<MessageBody>,
                 castDate: string -> Option<Date>): Option<WeightRow>
  {
    match parse(record.body)
    case None => None
    case Some(m) =>
      if m.id.None? || m.value.None? then None
      else
        match castDate(m.id.value)
        case None => None
        case Some(d) => Some(WeightRow(d, m.value.value))
  }

  /** On success the transaction holds exactly one row per record, in record
      order, each the row its record asks for. */
  lemma {:induction false} StageOneRowPerRecord(table: seq<WeightRow>, records: seq<QueueRecord>,
                                                parse: string -> Option<MessageBody>,
                                                castDate: string -> Option<Date>, b: Binding)
    requires Stage(table, records, parse, castDate, b).Success?
    ensures var rows := Stage(table, records, parse, castDate, b).value;
            |rows| == |records| && forall i :: 0 <= i < |records| ==> RowOf(records[i], parse, castDate) == Some(rows[i])
  {
    if records != [] {
      var n := |records|;
      var prefix := records[..n - 1];
      StageOneRowPerRecord(table, prefix, parse, castDate, b);
      var rows := Stage(table, records, parse, castDate, b).value;
      forall i | 0 <= i < n ensures RowOf(records[i], parse, castDate) == Some(rows[i]) {
        if i < n - 1 {
          assert records[i] == prefix[i];
        }
      }
    }
  }

  /** As written, three values go to a two-placeholder statement, so every
      non-empty batch fails on its first record, before any row is written. */
  lemma AsWrittenBatchAlwaysFails(table: seq<WeightRow>, records: seq<QueueRecord>,
                                  parse: string -> Option<MessageBody>, castDate: string -> Option<Date>)
    requires |records| > 0
    ensures var r := Stage(table, records, parse, castDate, AsWritten);
            r.Failure? && (r.error.MalformedBody? || r.error.MissingKey? || r.error == ArgumentCount(3))
    ensures InsertRecord(table, records[0], parse, castDate, AsWritten).Failure?
    ensures Stage(table, records, parse, castDate, AsWritten)
            == Failure(InsertRecord(table, records[0], parse, castDate, AsWritten).error)
  {
    StageSnoc(table, records, 0, parse, castDate, AsWritten);
    assert records[..0] == [];
    assert table + [] == table;
    StageFailureSticks(table, records, 1, parse, castDate, AsWritten);
  }

  /** Whether `record` asks for a row dated `d`. */
  predicate AsksForDate(record: QueueRecord, parse: string -> Option<MessageBody>,
                        castDate: string -> Option<Date>, d: Date)
  {
    var row := RowOf(record, parse, castDate);
    row.Some? && row.value.date == d
  }

  /** Record `i` asks for a row the CHECK accepts and whose date is neither in
      the table nor asked for by an earlier record of the batch. */
  predicate Insertable(table: seq<WeightRow>, records: seq<QueueRecord>, i: int,
                       parse: string -> Option<MessageBody>, castDate: string -> Option<Date>)
    requires 0 <= i < |records|
  {
    var row := RowOf(records[i], parse, castDate);
    && row.Some?
    && WeightAllowed(row.value.weight)
    && !HasDate(table, row.value.date)
    && forall j :: 0 <= j < i ==> !AsksForDate(records[j], parse, castDate, row.value.date)
  }

  /** With the two intended values bound, one record is inserted exactly when
      it asks for a row the CHECK accepts on a date not yet present. */
  lemma InsertRecordTwoValues(table: seq<WeightRow>, record: QueueRecord,
                              parse: string -> Option<MessageBody>, castDate: string -> Option<Date>)
    ensures var r := InsertRecord(table, record, parse, castDate, TwoValues);
            var row := RowOf(record, parse, castDate);
            && (r.Success? <==> row.Some? && WeightAllowed(row.value.weight) && !HasDate(table, row.value.date))
            && (r.Success? ==> r.value == row.value)
  {
  }

  lemma HasDateAppend(table: seq<WeightRow>, rows: seq<WeightRow>, d: Date)
    ensures HasDate(table + rows, d) <==> HasDate(table, d) || HasDate(rows, d)
  {
    if HasDate(table + rows, d) {
      var k :| 0 <= k < |table + rows| && (table + rows)[k].date == d;
      if k >= |table| {
        assert rows[k - |table|].date == d;
      }
    }
    if HasDate(rows, d) {
      var k :| 0 <= k < |rows| && rows[k].date == d;
      assert (table + rows)[|table| + k].date == d;
    }
    if HasDate(table, d) {
      var k :| 0 <= k < |table| && table[k].date == d;
      assert (table + rows)[k].date == d;
    }
  }

  /** With the two intended values bound, a batch goes through exactly when
      every record is insertable: a bare INSERT fails the whole batch on a date
      already stored or repeated within the batch, and on a weight outside
      (0, 300). */
  lemma {:induction false} TwoValueBatchSucceedsIff(table: seq<WeightRow>, records: seq<QueueRecord>,
                                                    parse: string -> Option<MessageBody>,
                                                    castDate: string -> Option<Date>)
    ensures Stage(table, records, parse, castDate, TwoValues).Success?
            <==> forall i :: 0 <= i < |records| ==> Insertable(table, records, i, parse, castDate)
  {
    if records != [] {
      var n := |records|;
      var prefix := records[..n - 1];
      var last := records[n - 1];
      TwoValueBatchSucceedsIff(table, prefix, parse, castDate);
      forall i | 0 <= i < n - 1
        ensures Insertable(table, prefix, i, parse, castDate) == Insertable(table, records, i, parse, castDate)
      {
        assert prefix[i] == records[i];
        assert forall j :: 0 <= j < i ==> prefix[j] == records[j];
      }
      var s := Stage(table, prefix, parse, castDate, TwoValues);
      if s.Success? {
        StageOneRowPerRecord(table, prefix, parse, castDate, TwoValues);
        var rows := s.value;
        InsertRecordTwoValues(table + rows, last, parse, castDate);
        var row := RowOf(last, parse, castDate);
        assert Stage(table, records, parse, castDate, TwoValues)
               == StageStep(table, s, last, parse, castDate, TwoValues);
        if row.Some? {
          var d := row.value.date;
          HasDateAppend(table, rows, d);
          assert HasDate(rows, d) <==> exists j :: 0 <= j < n - 1 && AsksForDate(records[j], parse, castDate, d) by {
            if HasDate(rows, d) {
              var j :| 0 <= j < |rows| && rows[j].date == d;
              assert RowOf(prefix[j], parse, castDate) == Some(rows[j]);
              assert AsksForDate(records[j], parse, castDate, d);
            }
            if j :| 0 <= j < n - 1 && AsksForDate(records[j], parse, castDate, d) {
              assert RowOf(prefix[j], parse, castDate) == Some(rows[j]);
              assert rows[j].date == d;
            }
          }
          assert Stage(table, records, parse, castDate, TwoValues).Success?
                 <==> Insertable(table, records, n - 1, parse, castDate);
        }
        assert (forall i :: 0 <= i < n ==> Insertable(table, records, i, parse, castDate))
               <==> (forall i :: 0 <= i < n - 1 ==> Insertable(table, records, i, parse, castDate))
                    && Insertable(table, records, n - 1, parse, castDate);
      }
    }
  }

  /** A bare INSERT is not idempotent: a record delivered twice whose row is
      already stored fails its whole batch, even with the intended binding. */
  lemma RedeliveredRecordFailsBatch(table: seq<WeightRow>, records: seq<QueueRecord>, i: int,
                                    parse: string -> Option<MessageBody>, castDate: string -> Option<Date>)
    requires 0 <= i < |records|
    requires RowOf(records[i], parse, castDate).Some?
    requires HasDate(table, RowOf(records[i], parse, castDate).value.date)
    ensures Stage(table, records, parse, castDate, TwoValues).Failure?
  {
    TwoValueBatchSucceedsIff(table, records, parse, castDate);
    assert !Insertable(table, records, i, parse, castDate);
  }

  /** The database server as one connection sees it. */
  class Database {
    var committed: seq<WeightRow>     // rows every connection sees
    var transaction: seq<WeightRow>   // rows inserted by the open transaction
    const reachable: bool             // whether `psycopg2.connect` succeeds
    const commitSucceeds: bool        // whether `conn.commit()` succeeds
    const castDate: string -> Option<Date>  // the server's reading of a text as a DATE

    ghost predicate Valid()
      reads this
    {
      ValidTable(committed + transaction)
    }

    constructor (rows: seq<WeightRow>, reachable: bool, commitSucceeds: bool, castDate: string -> Option<Date>)
      requires ValidTable(rows)
      ensures Valid() && committed == rows && transaction == []
      ensures this.reachable == reachable && this.commitSucceeds == commitSucceeds && this.castDate == castDate
    {
      committed, transaction := rows, [];
      this.reachable, this.commitSucceeds, this.castDate := reachable, commitSucceeds, castDate;
    }

    method Connect() returns (ok: bool)
      ensures ok == reachable
    {
      ok := reachable;
    }

    /** `cursor.execute(INSERT ..., params)` inside the open transaction. */
    method Execute(params: seq<SqlValue>) returns (r: Result<WeightRow, IngestError>)
      requires Valid()
      modifies this`transaction
      ensures Valid()
      ensures r == InsertWeight(committed + old(transaction), params, castDate)
      ensures transaction == if r.Success? then old(transaction) + [r.value] else old(transaction)
    {
      r := InsertWeight(committed + transaction, params, castDate);
      if r.Success? {
        assert committed + (transaction + [r.value]) == committed + transaction + [r.value];
        transaction := transaction + [r.value];
      }
    }

    /** `conn.commit()`: the transaction's rows become permanent, or on
        failure the transaction is rolled back. */
    method Commit() returns (ok: bool)
      requires Valid()
      modifies this
      ensures Valid() && transaction == []
      ensures ok == commitSucceeds
      ensures committed == if ok then old(committed) + old(transaction) else old(committed)
    {
      ok := commitSucceeds;
      if ok {
        committed := committed + transaction;
      } else {
        assert ValidTable(committed + []) by {
          assert committed + [] == committed;
          assert forall i :: 0 <= i < |committed| ==> committed[i] == (committed + transaction)[i];
        }
      }
      transaction := [];
      assert committed + transaction == committed;
    }

    /** The connection goes away with its transaction open: the uncommitted
        rows are discarded. */
    method Abandon()
      requires Valid()
      modifies this`transaction
      ensures Valid() && transaction == [] && committed == old(committed)
    {
      assert forall i :: 0 <= i < |committed| ==> committed[i] == (committed + transaction)[i];
      transaction := [];
      assert committed + transaction == committed;
    }
  }

  /** The SQS queue as the consumer sees it. */
  class Queue {
    var deleted: seq<string>                 // receipt handles acknowledged, in order
    const deleteSucceeds: string -> bool     // whether `delete_message` succeeds for a handle

    constructor (deleteSucceeds: string -> bool)
      ensures deleted == [] && this.deleteSucceeds == deleteSucceeds
    {
      deleted := [];
      this.deleteSucceeds := deleteSucceeds;
    }

    /** `sqs_client.delete_message(QueueUrl, ReceiptHandle)`. */
    method DeleteMessage(handle: string) returns (ok: bool)
      modifies this
      ensures ok == deleteSucceeds(handle)
      ensures deleted == if ok then old(deleted) + [handle] else old(deleted)
    {
      ok := deleteSucceeds(handle);
      if ok {
        deleted := deleted + [handle];
      }
    }
  }

  function Handles(records: seq<QueueRecord>): (r: seq<string>)
    ensures |r| == |records| && forall i :: 0 <= i < |records| ==> r[i] == records[i].receiptHandle
  {
    seq(|records|, i requires 0 <= i < |records| => records[i].receiptHandle)
  }

  /** How many records, from the first, are deleted before the first delete
      that fails. */
  function AckedCount(records: seq<QueueRecord>, accepts: string -> bool): (n: nat)
    ensures n <= |records|
    ensures forall i :: 0 <= i < n ==> accepts(records[i].receiptHandle)
    ensures n < |records| ==> !accepts(records[n].receiptHandle)
  {
    if records == [] || !accepts(records[0].receiptHandle) then 0
    else 1 + AckedCount(records[1..], accepts)
  }

  /** The first loop of `lambda_handler`: each record's body is parsed and
      inserted in the open transaction, and the first exception ends the loop. */
  method StageBatch(db: Database, records: seq<QueueRecord>, parse: string -> Option<MessageBody>, binding: Binding)
    returns (error: Option<IngestError>)
    requires db.Valid() && db.transaction == []
    modifies db`transaction
    ensures db.Valid()
    ensures error.None? ==> Stage(db.committed, records, parse, db.castDate, binding) == Success(db.transaction)
    ensures error.Some? ==> Stage(db.committed, records, parse, db.castDate, binding) == Failure(error.value)
  {
    error := None;
    var i := 0;
    while i < |records| && error.None?
      invariant 0 <= i <= |records|
      invariant db.Valid()
      invariant error.None? ==> Stage(db.committed, records[..i], parse, db.castDate, binding) == Success(db.transaction)
      invariant error.Some? ==> Stage(db.committed, records[..i], parse, db.castDate, binding) == Failure(error.value)
    {
      StageSnoc(db.committed, records, i, parse, db.castDate, binding);
      var message := parse(records[i].body);
      if message.None? {
        error := Some(MalformedBody(records[i].body));
      } else {
        var params := BindParams(binding, message.value);
        if params.Failure? {
          error := Some(params.error);
        } else {
          var inserted := db.Execute(params.value);
          if inserted.Failure? {
            error := Some(inserted.error);
          }
        }
      }
      i := i + 1;
    }
    if error.Some? {
      StageFailureSticks(db.committed, records, i, parse, db.castDate, binding);
    } else {
      assert records[..i] == records;
    }
  }

  /** The second loop of `lambda_handler`: each message is deleted by its
      receipt handle, and the first failed delete ends it. */
  method Acknowledge(queue: Queue, records: seq<QueueRecord>) returns (ok: bool)
    modifies queue
    ensures ok <==> AckedCount(records, queue.deleteSucceeds) == |records|
    ensures queue.deleted == old(queue.deleted) + Handles(records)[..AckedCount(records, queue.deleteSucceeds)]
  {
    var k := 0;
    assert Handles(records)[..0] == [];
    while k < |records|
      invariant 0 <= k <= |records|
      invariant forall j :: 0 <= j < k ==> queue.deleteSucceeds(records[j].receiptHandle)
      invariant queue.deleted == old(queue.deleted) + Handles(records)[..k]
    {
      ok := queue.DeleteMessage(records[k].receiptHandle);
      if !ok {
        AckedCountIsFirstRefusal(records, queue.deleteSucceeds, k);
        return;
      }
      assert Handles(records)[..k + 1] == Handles(records)[..k] + [records[k].receiptHandle];
      k := k + 1;
    }
    AckedCountIsFirstRefusal(records, queue.deleteSucceeds, k);
    ok := true;
  }

  /** `AckedCount` is the index of the first refused delete, or the whole batch. */
  lemma AckedCountIsFirstRefusal(records: seq<QueueRecord>, accepts: string -> bool, k: nat)
    requires k <= |records|
    requires forall j :: 0 <= j < k ==> accepts(records[j].receiptHandle)
    requires k < |records| ==> !accepts(records[k].receiptHandle)
    ensures AckedCount(records, accepts) == k
  {
  }

  /** What `lambda_handler`'s `except` clause catches, when anything. */
  function HandlerError(table: seq<WeightRow>, records: seq<QueueRecord>, parse: string -> Option<MessageBody>,
                        binding: Binding, reachable: bool, commitSucceeds: bool,
                        castDate: string -> Option<Date>, deleteSucceeds: string -> bool): Option<IngestError>
  {
    if !reachable then Some(ConnectFailed)
    else
      var staged := Stage(table, records, parse, castDate, binding);
      if staged.Failure? then Some(staged.error)
      else if !commitSucceeds then Some(CommitFailed)
      else
        var n := AckedCount(records, deleteSucceeds);
        if n < |records| then Some(DeleteFailed(records[n].receiptHandle)) else None
  }

  /** As written, the handler answers 500 to every non-empty batch, so its own
      delete loop never deletes a message. */
  lemma AsWrittenHandlerAlwaysFails(table: seq<WeightRow>, records: seq<QueueRecord>,
                                    parse: string -> Option<MessageBody>, reachable: bool, commitSucceeds: bool,
                                    castDate: string -> Option<Date>, deleteSucceeds: string -> bool)
    requires |records| > 0
    ensures HandlerError(table, records, parse, AsWritten, reachable, commitSucceeds, castDate, deleteSucceeds).Some?
  {
    AsWrittenBatchAlwaysFails(table, records, parse, castDate);
  }

  /** With the two intended values bound, the handler succeeds exactly when the
      database is reachable, every record is insertable, the commit goes
      through and every delete is accepted. */
  lemma TwoValueHandlerSucceedsIff(table: seq<WeightRow>, records: seq<QueueRecord>,
                                   parse: string -> Option<MessageBody>, reachable: bool, commitSucceeds: bool,
                                   castDate: string -> Option<Date>, deleteSucceeds: string -> bool)
    ensures HandlerError(table, records, parse, TwoValues, reachable, commitSucceeds, castDate, deleteSucceeds).None?
            <==> && reachable
                 && (forall i :: 0 <= i < |records| ==> Insertable(table, records, i, parse, castDate))
                 && commitSucceeds
                 && (forall i :: 0 <= i < |records| ==> deleteSucceeds(records[i].receiptHandle))
  {
    TwoValueBatchSucceedsIff(table, records, parse, castDate);
    var n := AckedCount(records, deleteSucceeds);
    if n < |records| {
      assert !deleteSucceeds(records[n].receiptHandle);
    }
  }

  /** An empty batch writes nothing and needs only the connection and the commit. */
  lemma EmptyBatch(table: seq<WeightRow>, parse: string -> Option<MessageBody>, binding: Binding,
                   reachable: bool, commitSucceeds: bool,
                   castDate: string -> Option<Date>, deleteSucceeds: string -> bool)
    ensures Stage(table, [], parse, castDate, binding) == Success([])
    ensures HandlerError(table, [], parse, binding, reachable, commitSucceeds, castDate, deleteSucceeds).None?
            <==> reachable && commitSucceeds
  {
  }

  /** `lambda_handler` over the event's records: 200 when every row was
      committed and every message deleted, 500 with the exception otherwise.
      Rows reach the table only through the commit, all of the batch or none,
      and no message is deleted before its row is committed. */
  method LambdaHandler(db: Database, queue: Queue, records: seq<QueueRecord>,
                       parse: string -> Option<MessageBody>, binding: Binding)
    returns (statusCode: int, error: Option<IngestError>)
    requires db.Valid() && db.transaction == []
    modifies db, queue
    ensures db.Valid() && db.transaction == []
    ensures error == HandlerError(old(db.committed), records, parse, binding, db.reachable, db.commitSucceeds,
                                  db.castDate, queue.deleteSucceeds)
    ensures statusCode == if error.None? then 200 else 500
    ensures var staged := Stage(old(db.committed), records, parse, db.castDate, binding);
            var committed := db.reachable && staged.Success? && db.commitSucceeds;
            && (committed ==> db.committed == old(db.committed) + staged.value)
            && (committed ==> queue.deleted == old(queue.deleted)
                                + Handles(records)[..AckedCount(records, queue.deleteSucceeds)])
            && (!committed ==> db.committed == old(db.committed) && queue.deleted == old(queue.deleted))
  {
    var connected := db.Connect();
    if !connected {
      return 500, Some(ConnectFailed);
    }
    var failure := StageBatch(db, records, parse, binding);
    if failure.Some? {
      db.Abandon();
      return 500, failure;
    }
    var committed := db.Commit();
    if !committed {
      return 500, Some(CommitFailed);
    }
    var acknowledged := Acknowledge(queue, records);
    if !acknowledged {
      return 500, Some(DeleteFailed(records[AckedCount(records, queue.deleteSucceeds)].receiptHandle));
    }
    return 200, None;
  }
}
