/** The request/response schemas: the three closed status enumerations with
    the string values they are stored under, the bounded work input, the
    work result, the callback payload and the stored request record. */
module Models {
  import opened Wrappers

  /** Instants read from the clock; only their order matters here. */
  type Timestamp = int

  // ---------------------------------------------------------------------
  // Enumerations and their stored string values

  datatype RequestMode = Sync | Async

  datatype RequestStatus = Pending | Processing | Completed | Failed

  datatype CallbackStatus = Pending | Sent | Failed

  function ModeValue(m: RequestMode): string {
    match m
    case Sync => "sync"
    case Async => "async"
  }

  /** `RequestMode(s)`: the member whose value is s, if any. */
  function ParseMode(s: string): (m: Option<RequestMode>)
    ensures m.Some? <==> s == "sync" || s == "async"
    ensures m.Some? ==> ModeValue(m.value) == s
  {
    if s == "sync" then Some(Sync)
    else if s == "async" then Some(Async)
    else None
  }

  function StatusValue(st: RequestStatus): string {
    match st
    case Pending => "pending"
    case Processing => "processing"
    case Completed => "completed"
    case Failed => "failed"
  }

  /** `RequestStatus(s)`: the member whose value is s, if any. */
  function ParseStatus(s: string): (st: Option<RequestStatus>)
    ensures st.Some? <==> s == "pending" || s == "processing" || s == "completed" || s == "failed"
    ensures st.Some? ==> StatusValue(st.value) == s
  {
    if s == "pending" then Some(RequestStatus.Pending)
    else if s == "processing" then Some(Processing)
    else if s == "completed" then Some(Completed)
    else if s == "failed" then Some(RequestStatus.Failed)
    else None
  }

  function CallbackStatusValue(cs: CallbackStatus): string {
    match cs
    case Pending => "pending"
    case Sent => "sent"
    case Failed => "failed"
  }

  /** `CallbackStatus(s)`: the member whose value is s, if any. */
  function ParseCallbackStatus(s: string): (cs: Option<CallbackStatus>)
    ensures cs.Some? <==> s == "pending" || s == "sent" || s == "failed"
    ensures cs.Some? ==> CallbackStatusValue(cs.value) == s
  {
    if s == "pending" then Some(CallbackStatus.Pending)
    else if s == "sent" then Some(Sent)
    else if s == "failed" then Some(CallbackStatus.Failed)
    else None
  }

  /** Every member is recovered from its value, so the values of one
      enumeration are pairwise distinct. */
  lemma EnumValuesRoundTrip(m: RequestMode, st: RequestStatus, cs: CallbackStatus)
    ensures ParseMode(ModeValue(m)) == Some(m)
    ensures ParseStatus(StatusValue(st)) == Some(st)
    ensures ParseCallbackStatus(CallbackStatusValue(cs)) == Some(cs)
  {
  }

  // ---------------------------------------------------------------------
  // Work input

  const MIN_TEXT_LENGTH: nat := 1
  const MAX_TEXT_LENGTH: nat := 10000
  const MIN_COUNT: int := 1
  const MAX_COUNT: int := 100
  const DEFAULT_COUNT: int := 1

  /** The body shared by both endpoints: the text and how many case
      passes to run over it. */
  datatype WorkInput = WorkInput(text: string, count: int) {
    predicate Valid() {
      MIN_TEXT_LENGTH <= |text| <= MAX_TEXT_LENGTH && MIN_COUNT <= count <= MAX_COUNT
    }
  }

  /** Which fields of a request body failed validation. */
  datatype FieldError = TextLength | CountRange | MissingCallbackUrl

  /** Validation of a `WorkInput` body; `count` may be omitted and then
      defaults to 1. Every failing field is reported. */
  function NewWorkInput(text: string, count: Option<int>): (r: Result<WorkInput, set<FieldError>>)
    ensures r.Ok? <==> MIN_TEXT_LENGTH <= |text| <= MAX_TEXT_LENGTH && MIN_COUNT <= count.GetOr(DEFAULT_COUNT) <= MAX_COUNT
    ensures r.Ok? ==> r.value.Valid() && r.value.text == text && r.value.count == count.GetOr(DEFAULT_COUNT)
    ensures r.Err? ==> (TextLength in r.error <==> !(MIN_TEXT_LENGTH <= |text| <= MAX_TEXT_LENGTH))
    ensures r.Err? ==> (CountRange in r.error <==> !(MIN_COUNT <= count.GetOr(DEFAULT_COUNT) <= MAX_COUNT))
    ensures r.Err? ==> MissingCallbackUrl !in r.error
  {
    var c := count.GetOr(DEFAULT_COUNT);
    var errors := (if MIN_TEXT_LENGTH <= |text| <= MAX_TEXT_LENGTH then {} else {TextLength})
                + (if MIN_COUNT <= c <= MAX_COUNT then {} else {CountRange});
    if errors == {} then Ok(WorkInput(text, c)) else Err(errors)
  }

  /** The body of the asynchronous endpoint: a work input plus the URL the
      result is delivered to. The synchronous endpoint takes a bare
      `WorkInput`. */
  datatype AsyncRequest = AsyncRequest(work: WorkInput, callbackUrl: string)

  /** Validation of an `AsyncRequest` body: the work fields as for
      `WorkInput`, and `callback_url` is required. */
  function NewAsyncRequest(text: string, count: Option<int>, callbackUrl: Option<string>): (r: Result<AsyncRequest, set<FieldError>>)
    ensures r.Ok? <==> NewWorkInput(text, count).Ok? && callbackUrl.Some?
    ensures r.Ok? ==> r.value.work == NewWorkInput(text, count).value && r.value.callbackUrl == callbackUrl.value
    ensures r.Err? ==> (MissingCallbackUrl in r.error <==> callbackUrl.None?)
  {
    var work := NewWorkInput(text, count);
    var errors := (if work.Err? then work.error else {}) + (if callbackUrl.None? then {MissingCallbackUrl} else {});
    if errors == {} then Ok(AsyncRequest(work.value, callbackUrl.value)) else Err(errors)
  }

  // ---------------------------------------------------------------------
  // Results, payloads and records

  /** What the work produces (its wall-clock duration is not modelled). */
  datatype WorkResult = WorkResult(
    inputHash: string,
    wordCount: int,
    characterCount: int,
    processedText: string,
    iterations: int)

  datatype SyncResponse = SyncResponse(requestId: string, status: RequestStatus, result: WorkResult)

  const ACK_MESSAGE := "Request accepted. Result will be sent to callback URL."

  datatype AsyncAckResponse = AsyncAckResponse(requestId: string, status: RequestStatus, message: string)

  /** The JSON body POSTed to a callback URL. */
  datatype CallbackPayload = CallbackPayload(
    requestId: string,
    status: RequestStatus,
    result: Option<WorkResult>,
    error: Option<string>,
    timestamp: Timestamp)

  /** The full stored request. */
  datatype RequestRecord = RequestRecord(
    id: string,
    mode: RequestMode,
    inputData: WorkInput,
    outputData: Option<WorkResult>,
    status: RequestStatus,
    error: Option<string>,
    createdAt: Timestamp,
    completedAt: Option<Timestamp>,
    callbackUrl: Option<string>,
    callbackStatus: Option<CallbackStatus>,
    callbackAttempts: int,
    callbackLastError: Option<string>,
    callbackSentAt: Option<Timestamp>)

  /** A record built from its required fields only: every optional field
      is None and no callback attempt has been made. */
  function RecordWithDefaults(id: string, mode: RequestMode, inputData: WorkInput, status: RequestStatus, createdAt: Timestamp): (r: RequestRecord)
    ensures r.id == id && r.mode == mode && r.inputData == inputData && r.status == status && r.createdAt == createdAt
    ensures r.outputData.None? && r.error.None? && r.completedAt.None? && r.callbackUrl.None?
    ensures r.callbackStatus.None? && r.callbackLastError.None? && r.callbackSentAt.None?
    ensures r.callbackAttempts == 0
  {
    RequestRecord(id, mode, inputData, None, status, None, createdAt, None, None, None, 0, None, None)
  }

  /** The listing view of a request. */
  datatype RequestSummary = RequestSummary(
    id: string,
    mode: RequestMode,
    status: RequestStatus,
    createdAt: Timestamp,
    completedAt: Option<Timestamp>,
    callbackStatus: Option<CallbackStatus>)
}
