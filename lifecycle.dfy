/** What the two endpoints share: how a run of the work ends, the two
    result writes that bracket it, and the HTTP errors returned to the
    client. */
module Lifecycle {
  import opened Wrappers
  import opened Models
  import opened Repository
  import opened Work

  /** How a call of `perform_work` ends: it returns its result, or it
      raises an exception whose text is `message`. */
  datatype WorkRun = Completes | Raises(message: string)

  /** An `HTTPException`: status code and detail. */
  datatype HttpError = HttpError(statusCode: int, detail: string)

  /** The response FastAPI gives for an exception no handler catches. */
  const INTERNAL_SERVER_ERROR := HttpError(500, "Internal Server Error")

  /** The write made before the work starts: PROCESSING, with no output
      and no error. */
  function ProcessingUpdate(at: Timestamp): (u: ResultUpdate)
    ensures u.status == Processing && u.result.None? && u.error.None? && u.at == at
  {
    ResultUpdate(Processing, None, None, at)
  }

  /** The write made after the work: COMPLETED with the result, or FAILED
      with the exception text and no output. */
  function FinishedUpdate(input: WorkInput, run: WorkRun, sha256: string -> HexDigest, at: Timestamp): (u: ResultUpdate)
    ensures u.at == at
    ensures u.status == Completed <==> run.Completes?
    ensures run.Completes? ==> u.result == Some(ResultOf(input, sha256)) && u.error.None?
    ensures run.Raises? ==> u.status == RequestStatus.Failed && u.result.None? && u.error == Some(run.message)
  {
    match run
    case Completes => ResultUpdate(Completed, Some(ResultOf(input, sha256)), None, at)
    case Raises(message) => ResultUpdate(RequestStatus.Failed, None, Some(message), at)
  }

  /** The steps both endpoints take once the record exists: write
      PROCESSING at `t1`, run the work, write COMPLETED with its result or
      FAILED with the exception text at `t2`. The result and the error are
      returned for the response or the delivery. */
  method RunAndRecord(store: RequestStore, requestId: string, input: WorkInput, run: WorkRun,
                      sha256: string -> HexDigest, t1: Timestamp, t2: Timestamp)
    returns (result: Option<WorkResult>, error: Option<string>)
    requires store.Valid()
    modifies store
    ensures store.Valid()
    ensures store.log == old(store.log) + [ResultWritten(requestId, ProcessingUpdate(t1)),
                                           ResultWritten(requestId, FinishedUpdate(input, run, sha256, t2))]
    ensures store.table == WithResult(old(store.table), requestId, FinishedUpdate(input, run, sha256, t2))
    ensures result == FinishedUpdate(input, run, sha256, t2).result
    ensures error == FinishedUpdate(input, run, sha256, t2).error
  {
    store.UpdateRequestResult(requestId, Processing, t1);
    var status := RequestStatus.Failed;
    result, error := None, None;
    match run {
      case Completes =>
        var r := PerformWork(input, sha256);
        status, result := Completed, Some(r);
      case Raises(message) =>
        error := Some(message);
    }
    store.UpdateRequestResult(requestId, status, t2, result, error);
    ResultWriteOverwrites(old(store.table), requestId, ProcessingUpdate(t1), FinishedUpdate(input, run, sha256, t2));
  }

  /** The PROCESSING write already stamps the completion time, and it
      clears any output and error. */
  lemma ProcessingStampsCompletion(row: Row, at: Timestamp)
    requires RowValid(row)
    ensures var rec := RowToRecord(ApplyResult(row, ProcessingUpdate(at)));
      && rec.status == Processing && rec.completedAt == Some(at)
      && rec.outputData.None? && rec.error.None?
      && rec.callbackStatus == RowToRecord(row).callbackStatus
  {
  }

  /** Once the work has finished, the record shows its outcome and the
      time of the second write; the PROCESSING write leaves no trace. */
  lemma FinishedRecord(table: map<string, Row>, id: string, input: WorkInput, run: WorkRun,
                       sha256: string -> HexDigest, t1: Timestamp, t2: Timestamp)
    requires TableValid(table) && id in table
    ensures var t := WithResult(WithResult(table, id, ProcessingUpdate(t1)), id, FinishedUpdate(input, run, sha256, t2));
      var rec := RowToRecord(t[id]);
      && (rec.status == Completed <==> run.Completes?)
      && (rec.status == RequestStatus.Failed <==> run.Raises?)
      && (run.Completes? ==> rec.outputData == Some(ResultOf(input, sha256)) && rec.error.None?)
      && (run.Raises? ==> rec.outputData.None? && rec.error == Some(run.message))
      && rec.completedAt == Some(t2)
      && rec.createdAt == table[id].createdAt
  {
    ResultWriteOverwrites(table, id, ProcessingUpdate(t1), FinishedUpdate(input, run, sha256, t2));
  }
}
