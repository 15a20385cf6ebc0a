/** The synchronous endpoint: the work runs inside the request and its
    result is the response. No callback is ever involved. */
module SyncRoute {
  import opened Wrappers
  import opened Models
  import opened Repository
  import opened Work
  import opened Lifecycle

  /** The writes of a synchronous request whose id is new: the insert,
      PROCESSING, then COMPLETED or FAILED. Readings 0, 1 and 2 of the
      clock stamp them. */
  function SyncWrites(requestId: string, request: WorkInput, run: WorkRun,
                      sha256: string -> HexDigest, clock: nat -> Timestamp): seq<StoreWrite>
  {
    [ Inserted(requestId, RecordToRow(NewRequest(requestId, Sync, request, clock(0), None))),
      ResultWritten(requestId, ProcessingUpdate(clock(1))),
      ResultWritten(requestId, FinishedUpdate(request, run, sha256, clock(2))) ]
  }

  /** `sync_endpoint`. `requestId` is the generated UUID and `run` says
      whether `perform_work` returns or raises. An id already in the table
      makes the insert fail before anything is written, and the client
      gets a 500. */
  method SyncEndpoint(store: RequestStore, request: WorkInput, requestId: string, run: WorkRun,
                      sha256: string -> HexDigest, clock: nat -> Timestamp)
    returns (r: Result<SyncResponse, HttpError>)
    requires store.Valid()
    modifies store
    ensures store.Valid()
    ensures requestId in old(store.table) ==>
      r == Err(INTERNAL_SERVER_ERROR) && store.table == old(store.table) && store.log == old(store.log)
    ensures requestId !in old(store.table) ==>
      && store.log == old(store.log) + SyncWrites(requestId, request, run, sha256, clock)
      && store.table == WithResult(
           old(store.table)[requestId := RecordToRow(NewRequest(requestId, Sync, request, clock(0), None))],
           requestId, FinishedUpdate(request, run, sha256, clock(2)))
      && (run.Completes? ==> r == Ok(SyncResponse(requestId, Completed, ResultOf(request, sha256))))
      && (run.Raises? ==> r == Err(HttpError(500, "Work processing failed: " + run.message)))
  {
    var created := store.CreateRequest(requestId, Sync, request, clock(0));
    if created.Err? {
      return Err(INTERNAL_SERVER_ERROR);
    }
    var result, error := RunAndRecord(store, requestId, request, run, sha256, clock(1), clock(2));
    SyncWritesInOrder(old(store.log), requestId, request, run, sha256, clock);
    match run {
      case Completes =>
        r := Ok(SyncResponse(requestId, Completed, result.value));
      case Raises(message) =>
        r := Err(HttpError(500, "Work processing failed: " + message));
    }
  }

  /** The insert followed by the result writes are the request's writes. */
  lemma SyncWritesInOrder(log: seq<StoreWrite>, requestId: string, request: WorkInput, run: WorkRun,
                          sha256: string -> HexDigest, clock: nat -> Timestamp)
    ensures log + [Inserted(requestId, RecordToRow(NewRequest(requestId, Sync, request, clock(0), None)))]
                + [ResultWritten(requestId, ProcessingUpdate(clock(1))),
                   ResultWritten(requestId, FinishedUpdate(request, run, sha256, clock(2)))]
         == log + SyncWrites(requestId, request, run, sha256, clock)
  {
  }

  /** A synchronous request never touches the callback columns: its
      record has no callback URL and no callback status, and none of its
      writes is a callback write. */
  lemma SyncNeverCallsBack(requestId: string, request: WorkInput, run: WorkRun,
                           sha256: string -> HexDigest, clock: nat -> Timestamp)
    ensures var ws := SyncWrites(requestId, request, run, sha256, clock);
      && (forall i :: 0 <= i < |ws| ==> !ws[i].CallbackWritten? && ws[i].id == requestId)
      && ws[0].Inserted? && RowToRecord(ws[0].row).mode == Sync
      && RowToRecord(ws[0].row).callbackUrl.None? && RowToRecord(ws[0].row).callbackStatus.None?
  {
    RecordRoundTrip(NewRequest(requestId, Sync, request, clock(0), None));
  }

  /** The stored record of a new synchronous request ends COMPLETED with
      the result returned to the client, or FAILED with the exception
      text, created and completed at readings 0 and 2 of the clock. */
  lemma SyncFinalRecord(table: map<string, Row>, requestId: string, request: WorkInput, run: WorkRun,
                        sha256: string -> HexDigest, clock: nat -> Timestamp)
    requires TableValid(table) && requestId !in table
    ensures var rec := NewRequest(requestId, Sync, request, clock(0), None);
      var t := WithResult(table[requestId := RecordToRow(rec)], requestId, FinishedUpdate(request, run, sha256, clock(2)));
      && TableValid(t) && t.Keys == table.Keys + {requestId}
      && RowToRecord(t[requestId]) == rec.(status := FinishedUpdate(request, run, sha256, clock(2)).status,
                                           outputData := FinishedUpdate(request, run, sha256, clock(2)).result,
                                           error := FinishedUpdate(request, run, sha256, clock(2)).error,
                                           completedAt := Some(clock(2)))
      && (forall id :: id in table ==> t[id] == table[id])
  {
    var rec := NewRequest(requestId, Sync, request, clock(0), None);
    RecordRoundTrip(rec);
  }
}
