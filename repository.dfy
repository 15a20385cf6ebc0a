/** The requests table and the store operations over it. A row keeps the
    enumerations as the strings stored in the SQL columns; reading a row
    back decodes them. The store also keeps a ghost log of every write it
    performs, so that callers can state the exact sequence of writes a
    request goes through. */
module Repository {
  import opened Wrappers
  import opened Models

  // ---------------------------------------------------------------------
  // Rows and their decoding

  /** One row of the `requests` table. */
  datatype Row = Row(
    id: string,
    mode: string,
    inputData: WorkInput,
    outputData: Option<WorkResult>,
    status: string,
    error: Option<string>,
    createdAt: Timestamp,
    completedAt: Option<Timestamp>,
    callbackUrl: Option<string>,
    callbackStatus: Option<string>,
    callbackAttempts: int,
    callbackLastError: Option<string>,
    callbackSentAt: Option<Timestamp>)

  /** The table's CHECK constraints on the enumerated columns. */
  predicate RowValid(row: Row) {
    && ParseMode(row.mode).Some?
    && ParseStatus(row.status).Some?
    && (row.callbackStatus.Some? ==> ParseCallbackStatus(row.callbackStatus.value).Some?)
  }

  /** How a record is laid out in the table. */
  function RecordToRow(rec: RequestRecord): (row: Row)
    ensures RowValid(row)
  {
    EnumValuesRoundTrip(rec.mode, rec.status, if rec.callbackStatus.Some? then rec.callbackStatus.value else CallbackStatus.Pending);
    Row(rec.id, ModeValue(rec.mode), rec.inputData, rec.outputData, StatusValue(rec.status), rec.error,
        rec.createdAt, rec.completedAt, rec.callbackUrl,
        if rec.callbackStatus.Some? then Some(CallbackStatusValue(rec.callbackStatus.value)) else None,
        rec.callbackAttempts, rec.callbackLastError, rec.callbackSentAt)
  }

  /** `_row_to_record`: decodes the enumerated columns of a row. */
  function RowToRecord(row: Row): (rec: RequestRecord)
    requires RowValid(row)
    ensures RecordToRow(rec) == row
  {
    RequestRecord(
      row.id, ParseMode(row.mode).value, row.inputData, row.outputData,
      ParseStatus(row.status).value, row.error, row.createdAt, row.completedAt, row.callbackUrl,
      if row.callbackStatus.Some? then Some(ParseCallbackStatus(row.callbackStatus.value).value) else None,
      row.callbackAttempts, row.callbackLastError, row.callbackSentAt)
  }

  /** Storing a record and reading it back gives the same record. */
  lemma RecordRoundTrip(rec: RequestRecord)
    ensures RowToRecord(RecordToRow(rec)) == rec
  {
    EnumValuesRoundTrip(rec.mode, rec.status, if rec.callbackStatus.Some? then rec.callbackStatus.value else CallbackStatus.Pending);
  }

  /** The listing columns of a row. */
  function RowToSummary(row: Row): (s: RequestSummary)
    requires RowValid(row)
    ensures var rec := RowToRecord(row);
      s == RequestSummary(rec.id, rec.mode, rec.status, rec.createdAt, rec.completedAt, rec.callbackStatus)
  {
    RequestSummary(
      row.id, ParseMode(row.mode).value, ParseStatus(row.status).value, row.createdAt, row.completedAt,
      if row.callbackStatus.Some? then Some(ParseCallbackStatus(row.callbackStatus.value).value) else None)
  }

  /** Every row is stored under its own id and meets the CHECK constraints. */
  ghost predicate TableValid(table: map<string, Row>) {
    forall id :: id in table ==> table[id].id == id && RowValid(table[id])
  }

  // ---------------------------------------------------------------------
  // Writes

  /** The record `create_request` inserts: PENDING, created now, with a
      PENDING callback status exactly when a non-empty callback URL is
      given. */
  function NewRequest(requestId: string, mode: RequestMode, inputData: WorkInput, now: Timestamp, callbackUrl: Option<string>): (r: RequestRecord)
    ensures r.id == requestId && r.mode == mode && r.inputData == inputData && r.createdAt == now
    ensures r.status == RequestStatus.Pending && r.callbackUrl == callbackUrl
    ensures r.callbackStatus.Some? <==> callbackUrl.Some? && callbackUrl.value != ""
    ensures r.callbackStatus.Some? ==> r.callbackStatus.value == CallbackStatus.Pending
    ensures r.outputData.None? && r.error.None? && r.completedAt.None?
    ensures r.callbackAttempts == 0 && r.callbackLastError.None? && r.callbackSentAt.None?
  {
    var callbackStatus := if callbackUrl.Some? && callbackUrl.value != "" then Some(CallbackStatus.Pending) else None;
    RecordWithDefaults(requestId, mode, inputData, RequestStatus.Pending, now)
      .(callbackUrl := callbackUrl, callbackStatus := callbackStatus)
  }

  /** The arguments of one `update_request_result` call, with the clock
      reading it stamps. */
  datatype ResultUpdate = ResultUpdate(status: RequestStatus, result: Option<WorkResult>, error: Option<string>, at: Timestamp)

  /** The arguments of one `update_callback_status` call. */
  datatype CallbackUpdate = CallbackUpdate(status: CallbackStatus, attempts: int, error: Option<string>, sentAt: Option<Timestamp>)

  /** One write to the table, in the order the store performed it. */
  datatype StoreWrite =
    | Inserted(id: string, row: Row)
    | ResultWritten(id: string, result: ResultUpdate)
    | CallbackWritten(id: string, callback: CallbackUpdate)

  /** The row after `update_request_result`: status, output, error and
      completion time are all overwritten, whatever the new status is. */
  function ApplyResult(row: Row, u: ResultUpdate): (r: Row)
    requires RowValid(row)
    ensures RowValid(r)
    ensures RowToRecord(r)
         == RowToRecord(row).(status := u.status, outputData := u.result, error := u.error, completedAt := Some(u.at))
  {
    EnumValuesRoundTrip(Sync, u.status, CallbackStatus.Pending);
    row.(status := StatusValue(u.status), outputData := u.result, error := u.error, completedAt := Some(u.at))
  }

  /** The row after `update_callback_status`: all four callback columns
      are overwritten and nothing else changes. */
  function ApplyCallback(row: Row, u: CallbackUpdate): (r: Row)
    requires RowValid(row)
    ensures RowValid(r)
    ensures RowToRecord(r)
         == RowToRecord(row).(callbackStatus := Some(u.status), callbackAttempts := u.attempts,
                              callbackLastError := u.error, callbackSentAt := u.sentAt)
  {
    EnumValuesRoundTrip(Sync, RequestStatus.Pending, u.status);
    row.(callbackStatus := Some(CallbackStatusValue(u.status)), callbackAttempts := u.attempts,
         callbackLastError := u.error, callbackSentAt := u.sentAt)
  }

  /** The table after an UPDATE of the result columns of one id: no row
      changes when the id is absent. */
  function WithResult(table: map<string, Row>, id: string, u: ResultUpdate): (t: map<string, Row>)
    requires TableValid(table)
    ensures TableValid(t) && t.Keys == table.Keys
    ensures forall other :: other in table && other != id ==> t[other] == table[other]
  {
    if id in table then table[id := ApplyResult(table[id], u)] else table
  }

  /** The table after an UPDATE of the callback columns of one id. */
  function WithCallback(table: map<string, Row>, id: string, u: CallbackUpdate): (t: map<string, Row>)
    requires TableValid(table)
    ensures TableValid(t) && t.Keys == table.Keys
    ensures forall other :: other in table && other != id ==> t[other] == table[other]
  {
    if id in table then table[id := ApplyCallback(table[id], u)] else table
  }

  /** A callback write erases every trace of the previous one: only the
      last of two successive callback writes is visible. */
  lemma CallbackWriteOverwrites(table: map<string, Row>, id: string, u1: CallbackUpdate, u2: CallbackUpdate)
    requires TableValid(table)
    ensures WithCallback(WithCallback(table, id, u1), id, u2) == WithCallback(table, id, u2)
  {
  }

  /** Only the last of two successive result writes is visible. */
  lemma ResultWriteOverwrites(table: map<string, Row>, id: string, u1: ResultUpdate, u2: ResultUpdate)
    requires TableValid(table)
    ensures WithResult(WithResult(table, id, u1), id, u2) == WithResult(table, id, u2)
  {
  }

  /** A result write leaves the callback columns alone, and a callback
      write leaves the request columns alone. */
  lemma WritesTouchDisjointColumns(row: Row, r: ResultUpdate, c: CallbackUpdate)
    requires RowValid(row)
    ensures var rec := RowToRecord(ApplyResult(row, r));
      rec.callbackStatus == RowToRecord(row).callbackStatus && rec.callbackAttempts == row.callbackAttempts
    ensures var rec := RowToRecord(ApplyCallback(row, c));
      rec.status == RowToRecord(row).status && rec.outputData == row.outputData && rec.completedAt == row.completedAt
  {
  }

  // ---------------------------------------------------------------------
  // Listing

  /** The ids a listing with an optional mode filter selects. */
  function Matching(table: map<string, Row>, mode: Option<RequestMode>): set<string> {
    set id | id in table && (mode.None? || table[id].mode == ModeValue(mode.value))
  }

  /** All ids are in the table and ordered by creation time, newest first. */
  ghost predicate NewestFirst(table: map<string, Row>, order: seq<string>) {
    && (forall i :: 0 <= i < |order| ==> order[i] in table)
    && (forall i, j :: 0 <= i < j < |order| ==> table[order[i]].createdAt >= table[order[j]].createdAt)
  }

  /** Every id is in the table and was created no later than `c`. */
  ghost predicate CreatedNoLaterThan(table: map<string, Row>, ids: seq<string>, c: Timestamp) {
    forall i :: 0 <= i < |ids| ==> ids[i] in table && table[ids[i]].createdAt <= c
  }

  /** Inserts an id before the first one created no later than it. */
  function InsertNewestFirst(table: map<string, Row>, order: seq<string>, id: string): (r: seq<string>)
    requires id in table
    requires forall i :: 0 <= i < |order| ==> order[i] in table
    ensures multiset(r) == multiset(order) + multiset{id}
    ensures |r| == |order| + 1
    ensures forall k :: 0 <= k < |r| ==> r[k] in table
  {
    if order == [] then [id]
    else if table[id].createdAt >= table[order[0]].createdAt then [id] + order
    else
      assert order == [order[0]] + order[1..];
      [order[0]] + InsertNewestFirst(table, order[1..], id)
  }

  /** Inserting an id created no later than `c` among ids created no later
      than `c` keeps that bound. */
  lemma {:induction false} InsertKeepsBound(table: map<string, Row>, order: seq<string>, id: string, c: Timestamp)
    requires id in table && table[id].createdAt <= c
    requires CreatedNoLaterThan(table, order, c)
    ensures CreatedNoLaterThan(table, InsertNewestFirst(table, order, id), c)
  {
    if order != [] && table[id].createdAt < table[order[0]].createdAt {
      InsertKeepsBound(table, order[1..], id, c);
    }
  }

  /** An id created no earlier than every id of a newest-first ordering
      can go in front of it. */
  lemma ConsKeepsNewestFirst(table: map<string, Row>, head: string, rest: seq<string>)
    requires head in table && NewestFirst(table, rest)
    requires CreatedNoLaterThan(table, rest, table[head].createdAt)
    ensures NewestFirst(table, [head] + rest)
  {
    var r := [head] + rest;
    forall i, j | 0 <= i < j < |r| ensures table[r[i]].createdAt >= table[r[j]].createdAt {
      if i == 0 {
        assert r[j] == rest[j - 1];
      } else {
        assert r[i] == rest[i - 1] && r[j] == rest[j - 1];
      }
    }
  }

  /** Insertion keeps a newest-first ordering newest first. */
  lemma {:induction false} InsertKeepsNewestFirst(table: map<string, Row>, order: seq<string>, id: string)
    requires id in table && NewestFirst(table, order)
    ensures NewestFirst(table, InsertNewestFirst(table, order, id))
  {
    if order == [] {
      assert InsertNewestFirst(table, order, id) == [id];
    } else if table[id].createdAt >= table[order[0]].createdAt {
      assert CreatedNoLaterThan(table, order, table[id].createdAt);
      ConsKeepsNewestFirst(table, id, order);
    } else {
      var c := table[order[0]].createdAt;
      var rest := InsertNewestFirst(table, order[1..], id);
      InsertKeepsNewestFirst(table, order[1..], id);
      assert CreatedNoLaterThan(table, order[1..], c);
      InsertKeepsBound(table, order[1..], id, c);
      ConsKeepsNewestFirst(table, order[0], rest);
    }
  }

  /** How many rows a page of `limit` rows starting at `offset` holds. */
  function PageLength(total: nat, limit: nat, offset: nat): (n: nat)
    ensures n <= limit
    ensures offset + n <= total || n == 0
  {
    if offset >= total then 0 else if limit < total - offset then limit else total - offset
  }

  /** The ids of the rows matching the mode filter, newest first: the
      `WHERE mode = ? ORDER BY created_at DESC` part of the listing. */
  method SelectNewestFirst(table: map<string, Row>, mode: Option<RequestMode>) returns (sorted: seq<string>)
    ensures multiset(sorted) == multiset(Matching(table, mode))
    ensures |sorted| == |Matching(table, mode)|
    ensures NewestFirst(table, sorted)
  {
    var matching := Matching(table, mode);
    var rest := table.Keys;
    sorted := [];
    while rest != {}
      invariant rest <= table.Keys
      invariant multiset(sorted) == multiset(matching - rest)
      invariant NewestFirst(table, sorted)
      decreases |rest|
    {
      var id :| id in rest;
      TakeFromRest(matching, rest, id);
      if mode.None? || table[id].mode == ModeValue(mode.value) {
        InsertKeepsNewestFirst(table, sorted, id);
        sorted := InsertNewestFirst(table, sorted, id);
      }
      rest := rest - {id};
    }
    assert matching - rest == matching;
    assert |sorted| == |multiset(sorted)| == |multiset(matching)| == |matching|;
  }

  /** Taking one id out of the rows still to visit adds it to the visited
      matching ids exactly when it matches. */
  lemma TakeFromRest(matching: set<string>, rest: set<string>, id: string)
    requires id in rest
    ensures id in matching ==> multiset(matching - (rest - {id})) == multiset(matching - rest) + multiset{id}
    ensures id !in matching ==> matching - (rest - {id}) == matching - rest
  {
    if id in matching {
      assert matching - (rest - {id}) == (matching - rest) + {id};
    }
  }

  // ---------------------------------------------------------------------
  // The store

  const DUPLICATE_ID := "UNIQUE constraint failed: requests.id"

  class RequestStore {
    var table: map<string, Row>
    ghost var log: seq<StoreWrite>

    ghost predicate Valid()
      reads this
    {
      TableValid(table)
    }

    constructor ()
      ensures Valid() && table == map[] && log == []
    {
      table := map[];
      log := [];
    }

    /** `create_request`: inserts a new PENDING row; inserting an id that is
        already present violates the primary key and changes nothing. */
    method CreateRequest(requestId: string, mode: RequestMode, inputData: WorkInput, now: Timestamp,
                         callbackUrl: Option<string> := None)
      returns (r: Result<RequestRecord, string>)
      requires Valid()
      modifies this
      ensures Valid()
      ensures requestId in old(table) ==> r == Err(DUPLICATE_ID) && table == old(table) && log == old(log)
      ensures requestId !in old(table) ==>
        && r == Ok(NewRequest(requestId, mode, inputData, now, callbackUrl))
        && table == old(table)[requestId := RecordToRow(r.value)]
        && log == old(log) + [Inserted(requestId, RecordToRow(r.value))]
    {
      if requestId in table {
        return Err(DUPLICATE_ID);
      }
      var record := NewRequest(requestId, mode, inputData, now, callbackUrl);
      var row := RecordToRow(record);
      table := table[requestId := row];
      log := log + [Inserted(requestId, row)];
      r := Ok(record);
    }

    /** `update_request_result`: overwrites status, output, error and the
        completion time of one id. */
    method UpdateRequestResult(requestId: string, status: RequestStatus, now: Timestamp,
                               result: Option<WorkResult> := None, error: Option<string> := None)
      requires Valid()
      modifies this
      ensures Valid()
      ensures table == WithResult(old(table), requestId, ResultUpdate(status, result, error, now))
      ensures log == old(log) + [ResultWritten(requestId, ResultUpdate(status, result, error, now))]
    {
      var u := ResultUpdate(status, result, error, now);
      table := WithResult(table, requestId, u);
      log := log + [ResultWritten(requestId, u)];
    }

    /** `update_callback_status`: overwrites the four callback columns of
        one id; omitted arguments store None. */
    method UpdateCallbackStatus(requestId: string, status: CallbackStatus, attempts: int,
                                error: Option<string> := None, sentAt: Option<Timestamp> := None)
      requires Valid()
      modifies this
      ensures Valid()
      ensures table == WithCallback(old(table), requestId, CallbackUpdate(status, attempts, error, sentAt))
      ensures log == old(log) + [CallbackWritten(requestId, CallbackUpdate(status, attempts, error, sentAt))]
    {
      var u := CallbackUpdate(status, attempts, error, sentAt);
      table := WithCallback(table, requestId, u);
      log := log + [CallbackWritten(requestId, u)];
    }

    /** `get_request`: the stored record, or None for an unknown id. */
    method GetRequest(requestId: string) returns (r: Option<RequestRecord>)
      requires Valid()
      ensures r.None? <==> requestId !in table
      ensures r.Some? ==> RecordToRow(r.value) == table[requestId]
    {
      if requestId !in table {
        return None;
      }
      r := Some(RowToRecord(table[requestId]));
    }

    /** `list_requests`: the number of rows matching the mode filter, and
        the page of `limit` summaries starting at `offset` in newest-first
        order. `order` is that whole ordering. */
    method ListRequests(mode: Option<RequestMode> := None, limit: nat := 50, offset: nat := 0)
      returns (summaries: seq<RequestSummary>, total: nat, ghost order: seq<string>)
      requires Valid()
      ensures total == |Matching(table, mode)| == |order|
      ensures multiset(order) == multiset(Matching(table, mode))
      ensures NewestFirst(table, order)
      ensures |summaries| == PageLength(total, limit, offset)
      ensures forall i :: 0 <= i < |summaries| ==> summaries[i] == RowToSummary(table[order[offset + i]])
    {
      var t := table;
      total := |Matching(t, mode)|;
      var sorted := SelectNewestFirst(t, mode);
      order := sorted;
      var lo := if offset < |sorted| then offset else |sorted|;
      var hi := if offset + limit < |sorted| then offset + limit else |sorted|;
      summaries := seq(hi - lo, i requires 0 <= i < hi - lo => RowToSummary(t[sorted[lo + i]]));
    }
  }
}
