/** The asynchronous endpoint: it validates the callback URL, records the
    request, queues a background task and acknowledges at once; the task
    later runs the work, records its outcome and delivers it to the
    callback URL. */
module AsyncRoute {
  import opened Wrappers
  import opened Models
  import opened Repository
  import opened Work
  import opened Callback
  import opened Lifecycle

  /** A queued call of `process_async_work` with its two arguments. */
  datatype Task = ProcessTask(requestId: string, request: AsyncRequest)

  /** The framework's queue of work to run after the response is sent. */
  class BackgroundTasks {
    var tasks: seq<Task>

    constructor ()
      ensures tasks == []
    {
      tasks := [];
    }

    /** `add_task`: appends a task; it does not run yet. */
    method AddTask(task: Task)
      modifies this
      ensures tasks == old(tasks) + [task]
    {
      tasks := tasks + [task];
    }
  }

  /** The record an accepted asynchronous request starts with. */
  function AsyncRecord(requestId: string, request: AsyncRequest, now: Timestamp): (rec: RequestRecord)
    ensures rec.mode == Async && rec.status == RequestStatus.Pending && rec.callbackUrl == Some(request.callbackUrl)
    ensures rec.callbackStatus == (if request.callbackUrl != "" then Some(CallbackStatus.Pending) else None)
  {
    NewRequest(requestId, Async, request.work, now, Some(request.callbackUrl))
  }

  /** `async_endpoint`. `requestId` is the generated UUID. A URL the
      validator refuses gives a 400 and changes nothing; an id already in
      the table makes the insert fail, which gives a 500 with nothing
      written or queued; otherwise one PENDING record is inserted, one task
      is queued and the acknowledgement is returned. */
  method AsyncEndpoint(store: RequestStore, background: BackgroundTasks, request: AsyncRequest,
                       requestId: string, now: Timestamp,
                       urlParse: string -> Result<UrlParts, string>, ipParse: string -> Option<IpAddress>)
    returns (r: Result<AsyncAckResponse, HttpError>)
    requires store.Valid()
    modifies store, background
    ensures store.Valid()
    ensures var v := ValidateCallbackUrl(request.callbackUrl, urlParse, ipParse);
      v.Err? ==>
        && r == Err(HttpError(400, "Invalid callback URL: " + v.error.Message()))
        && store.table == old(store.table) && store.log == old(store.log)
        && background.tasks == old(background.tasks)
    ensures ValidateCallbackUrl(request.callbackUrl, urlParse, ipParse).Ok? && requestId in old(store.table) ==>
      && r == Err(INTERNAL_SERVER_ERROR)
      && store.table == old(store.table) && store.log == old(store.log)
      && background.tasks == old(background.tasks)
    ensures ValidateCallbackUrl(request.callbackUrl, urlParse, ipParse).Ok? && requestId !in old(store.table) ==>
      && r == Ok(AsyncAckResponse(requestId, RequestStatus.Pending, ACK_MESSAGE))
      && store.table == old(store.table)[requestId := RecordToRow(AsyncRecord(requestId, request, now))]
      && store.log == old(store.log) + [Inserted(requestId, RecordToRow(AsyncRecord(requestId, request, now)))]
      && background.tasks == old(background.tasks) + [ProcessTask(requestId, request)]
  {
    var v := ValidateCallbackUrl(request.callbackUrl, urlParse, ipParse);
    if v.Err? {
      return Err(HttpError(400, "Invalid callback URL: " + v.error.Message()));
    }
    var created := store.CreateRequest(requestId, Async, request.work, now, Some(request.callbackUrl));
    if created.Err? {
      return Err(INTERNAL_SERVER_ERROR);
    }
    background.AddTask(ProcessTask(requestId, request));
    r := Ok(AsyncAckResponse(requestId, RequestStatus.Pending, ACK_MESSAGE));
  }

  /** The writes of one background task: PROCESSING, COMPLETED or FAILED,
      then the delivery's callback writes. Readings 0 and 1 of the clock
      stamp the result writes, 3 the sending time. */
  function TaskWrites(requestId: string, request: AsyncRequest, run: WorkRun, sha256: string -> HexDigest,
                      outcomes: seq<AttemptOutcome>, clock: nat -> Timestamp): seq<StoreWrite>
    requires |outcomes| == MAX_RETRY_ATTEMPTS
  {
    [ ResultWritten(requestId, ProcessingUpdate(clock(0))),
      ResultWritten(requestId, FinishedUpdate(request.work, run, sha256, clock(1))) ]
    + DeliveryWrites(requestId, outcomes, clock(3))
  }

  /** The payload the task delivers: the result when the work completed,
      the exception text when it raised. Reading 2 of the clock stamps it. */
  function TaskPayload(requestId: string, request: AsyncRequest, run: WorkRun, sha256: string -> HexDigest,
                       clock: nat -> Timestamp): (p: CallbackPayload)
    ensures p.status == Completed <==> run.Completes?
    ensures run.Completes? ==> p.result == Some(ResultOf(request.work, sha256)) && p.error.None?
    ensures run.Raises? ==> p.status == RequestStatus.Failed && p.result.None? && p.error == Some(run.message)
  {
    match run
    case Completes => PayloadFor(requestId, Some(ResultOf(request.work, sha256)), None, clock(2))
    case Raises(message) => PayloadFor(requestId, None, Some(message), clock(2))
  }

  /** `process_async_work`. `run` says whether `perform_work` returns or
      raises, and `outcomes` what each delivery attempt comes to. The
      delivery's result and POSTs are returned (the task itself discards
      them). */
  method ProcessAsyncWork(store: RequestStore, requestId: string, request: AsyncRequest, run: WorkRun,
                          sha256: string -> HexDigest, outcomes: seq<AttemptOutcome>, clock: nat -> Timestamp)
    returns (delivered: bool, posts: seq<Post>)
    requires store.Valid()
    requires |outcomes| == MAX_RETRY_ATTEMPTS
    modifies store
    ensures store.Valid()
    ensures store.log == old(store.log) + TaskWrites(requestId, request, run, sha256, outcomes, clock)
    ensures store.table == WithCallback(WithResult(old(store.table), requestId, FinishedUpdate(request.work, run, sha256, clock(1))),
                                        requestId, FinalUpdate(outcomes, clock(3)))
    ensures delivered <==> FailuresBeforeSuccess(outcomes) < MAX_RETRY_ATTEMPTS
    ensures |posts| == AttemptsMade(outcomes)
    ensures forall i :: 0 <= i < |posts| ==>
      posts[i] == Post(request.callbackUrl, TaskPayload(requestId, request, run, sha256, clock))
  {
    var result, error := RunAndRecord(store, requestId, request.work, run, sha256, clock(0), clock(1));
    TaskPayloadDelivered(requestId, request, run, sha256, clock);
    ghost var beforeDelivery := store.log;
    var delays;
    delivered, posts, delays := SendCallbackWithRetry(store, requestId, request.callbackUrl, result, error,
                                                      outcomes, clock(2), clock(3));
    TaskWritesInOrder(old(store.log), requestId, request, run, sha256, outcomes, clock);
  }

  /** The payload built from the recorded outcome is the task's payload. */
  lemma TaskPayloadDelivered(requestId: string, request: AsyncRequest, run: WorkRun, sha256: string -> HexDigest,
                             clock: nat -> Timestamp)
    ensures var u := FinishedUpdate(request.work, run, sha256, clock(1));
      PayloadFor(requestId, u.result, u.error, clock(2)) == TaskPayload(requestId, request, run, sha256, clock)
  {
  }

  /** The result writes followed by the delivery writes are the task's
      writes. */
  lemma TaskWritesInOrder(log: seq<StoreWrite>, requestId: string, request: AsyncRequest, run: WorkRun,
                          sha256: string -> HexDigest, outcomes: seq<AttemptOutcome>, clock: nat -> Timestamp)
    requires |outcomes| == MAX_RETRY_ATTEMPTS
    ensures log + [ResultWritten(requestId, ProcessingUpdate(clock(0))),
                   ResultWritten(requestId, FinishedUpdate(request.work, run, sha256, clock(1)))]
                + DeliveryWrites(requestId, outcomes, clock(3))
         == log + TaskWrites(requestId, request, run, sha256, outcomes, clock)
  {
  }

  /** After the task, the record of an existing request shows the work's
      outcome and the delivery's: COMPLETED with the result or FAILED with
      the error, callback SENT exactly when an attempt succeeded, and the
      columns the task does not write unchanged. */
  lemma TaskFinalRecord(table: map<string, Row>, requestId: string, request: AsyncRequest, run: WorkRun,
                        sha256: string -> HexDigest, outcomes: seq<AttemptOutcome>, clock: nat -> Timestamp)
    requires TableValid(table) && requestId in table
    requires |outcomes| == MAX_RETRY_ATTEMPTS
    ensures var t := WithCallback(WithResult(table, requestId, FinishedUpdate(request.work, run, sha256, clock(1))),
                                  requestId, FinalUpdate(outcomes, clock(3)));
      var before := RowToRecord(table[requestId]);
      var rec := RowToRecord(t[requestId]);
      && (rec.status == Completed <==> run.Completes?)
      && (run.Completes? ==> rec.outputData == Some(ResultOf(request.work, sha256)))
      && (run.Raises? ==> rec.status == RequestStatus.Failed && rec.error == Some(run.message))
      && rec.completedAt == Some(clock(1))
      && (rec.callbackStatus == Some(Sent) <==> exists i :: 0 <= i < |outcomes| && Succeeded(outcomes[i]))
      && rec.callbackStatus.Some? && rec.callbackStatus != Some(CallbackStatus.Pending)
      && 1 <= rec.callbackAttempts <= MAX_RETRY_ATTEMPTS
      && rec.id == before.id && rec.mode == before.mode && rec.inputData == before.inputData
      && rec.createdAt == before.createdAt && rec.callbackUrl == before.callbackUrl
  {
    DeliveryFinalWrite(outcomes, clock(3));
  }
}
