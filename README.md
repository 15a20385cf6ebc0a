# Request lifecycle and webhook delivery, modelled in Dafny

The service accepts a unit of text-processing work in one of two modes.
**Sync** runs the work inside the request and returns the result.
**Async** validates a callback URL against server-side request forgery
rules, records the request as PENDING, acknowledges at once, and later runs
the work in a background task. That task records COMPLETED or FAILED and
POSTs the outcome to the callback URL with up to five attempts and
exponential backoff. Every state change goes to a `requests` table. A
separate load generator counts outcomes and computes latency percentiles.

The model is organised by the service's own modules:

- `wrappers.dfy`: `Option` and `Result`.
- `pystr.dfy`: the Python string operations the code relies on (`split()`,
  `upper()`/`lower()`, `endswith`, `s[:n]`, `str(int)`), with their
  round-trip properties.
- `models.dfy`: the three status enumerations and their stored string
  values, the validated work input, the result, the callback payload and
  the stored record.
- `work.dfy`: `perform_work`, as a method with its alternating case loop,
  proved against a closed-form `ResultOf`.
- `repository.dfy`: the table as a `map` from id to row.
  - Rows hold the enumerations as the strings stored in the SQL columns,
    and the CHECK constraints are the predicate `RowValid`.
  - The class `RequestStore` performs the INSERT and the UPDATEs in place.
    It also keeps a ghost log of every write, so the exact write sequence
    of each operation can be stated.
  - The listing is a selection loop proved to give the matching ids newest
    first.
- `callback.dfy`: `validate_callback_url` as a pure function with its
  denylists and networks, and `send_callback_with_retry` as a method whose
  loop is proved against a closed-form description of the writes, POSTs
  and sleeps.
- `lifecycle.dfy`: what both endpoints share, namely the PROCESSING write,
  the work, and the COMPLETED or FAILED write.
- `sync_route.dfy` and `async_route.dfy`: the two endpoints and the
  background task.
- `load_generator.dfy`: the statistics class of the load generator.

Foreign and nondeterministic pieces are parameters:

- URL parsing (`urlparse`) and IP-literal parsing (`ipaddress.ip_address`);
- SHA-256, which is any function returning 64 lower-case hex characters;
- the generated UUID and the clock readings;
- whether `perform_work` returns or raises;
- what each delivery attempt comes to: a status code with a body, or a
  transport error.

The sleeps between attempts are returned as the list of requested delays.

Two behaviours of the code that a reader may not expect:

- `update_request_result` stamps `completed_at` on every write, including
  the PROCESSING write (database/repository.py:58-69). A PROCESSING record
  therefore already has a completion time. See
  `Lifecycle.ProcessingStampsCompletion`.
- A delivery attempt counts as successful for any status code below 400,
  redirects included, and not only for 2xx (utils/callback.py:114).
- A hostname on the denylist is refused as a name even when it is an IP
  literal (169.254.169.254). The IP check is reached only for names not
  on the denylist.
- The IPv4-mapped form of the loopback address, `::ffff:127.0.0.1`, is an
  IPv6 address. It lies in none of the three blocked IPv6 networks, so the
  range check accepts it. See `Callback.MappedLoopbackNotBlocked`.
- An INSERT with an id already in the table violates the primary key. The
  exception escapes the endpoint, which FastAPI turns into a 500 with
  nothing written.

## Model

| member | source | states |
|---|---|---|
| PyStr.Upper | core/work.py:35 | `s.upper()`: same length, every letter mapped to its capital, everything else kept |
| PyStr.Lower | utils/callback.py:68 | `s.lower()`: same length, every capital mapped to its small letter, everything else kept |
| PyStr.LowerOfUpper | core/work.py:33-35 | a lower-case pass undoes any earlier upper-case pass |
| PyStr.UpperOfLower | core/work.py:33-35 | an upper-case pass undoes any earlier lower-case pass |
| PyStr.LowerWithoutCapitals | utils/callback.py:68 | a string without capitals is its own lower-case form |
| PyStr.IsSpace | core/work.py:43 | the characters `str.split()` splits on: Python's whitespace, i.e. TAB to CR, the separators U+001C to U+001F, space, NEL, NO-BREAK SPACE and the Unicode space, line and paragraph separators |
| PyStr.TokenLen | core/work.py:43 | the first word of a string is its longest prefix without whitespace |
| PyStr.Split | core/work.py:43 | `split()` yields only non-empty words without whitespace |
| PyStr.TokenLenOfWord | core/work.py:43 | a string without whitespace is one whole token |
| PyStr.TokenLenBeforeSpace | core/work.py:43 | a whitespace character ends the first token |
| PyStr.SplitAroundSpace | core/work.py:43 | splitting at one whitespace character splits each side separately |
| PyStr.SplitOfWord | core/work.py:43 | a single word splits into itself |
| PyStr.SplitJoin | core/work.py:43 | `" ".join(words).split() == words` for words without whitespace |
| PyStr.Join | core/work.py:43 | `" ".join(words)`: the words with one space between neighbours, the partner that `SplitJoin` inverts `split()` against |
| PyStr.Take | utils/callback.py:125 | `s[:n]` is the prefix of length min(n, len(s)) |
| PyStr.EndsWith | utils/callback.py:70 | `s.endswith(suffix)`: the suffix fits in s and the last characters of s are the suffix |
| PyStr.NatToDecimal | core/work.py:39 | the decimal rendering of a natural number is a non-empty string of digits |
| PyStr.DecimalRoundTrip | core/work.py:39 | reading back the rendered digits gives the number |
| PyStr.IntToDecimal | core/work.py:39 | `str(i)` consists of digits and a minus sign |
| PyStr.IntToDecimalInjective | core/work.py:39 | distinct integers render differently |
| Models.ModeValue | model/models.py:10-12 | the stored value of each mode: "sync" and "async" |
| Models.StatusValue | model/models.py:15-19 | the stored value of each status: "pending", "processing", "completed" and "failed" |
| Models.CallbackStatusValue | model/models.py:22-25 | the stored value of each callback status: "pending", "sent" and "failed" |
| Models.ParseMode | model/models.py:10-12 | `RequestMode(s)` succeeds exactly for "sync" and "async", and gives the member with that value |
| Models.ParseStatus | model/models.py:15-19 | `RequestStatus(s)` succeeds exactly for the four status values, and gives the member with that value |
| Models.ParseCallbackStatus | model/models.py:22-25 | `CallbackStatus(s)` succeeds exactly for "pending", "sent" and "failed", and gives the member with that value |
| Models.EnumValuesRoundTrip | model/models.py:10-25 | every member is recovered from its value, so values are distinct within an enumeration |
| Models.NewWorkInput | model/models.py:30-33 | accepted iff 1 <= len(text) <= 10000 and 1 <= count <= 100, with count defaulting to 1; each failing field is reported |
| Models.NewAsyncRequest | model/models.py:41-43 | accepted iff the work fields are valid and `callback_url` is present; a missing URL is reported |
| Models.RecordWithDefaults | model/models.py:83-97 | a record built from its required fields has every optional field None and 0 callback attempts |
| Work.ProcessedText | core/work.py:32-35 | the closed form of the case loop: the text unchanged for a count of 0 or less, upper-cased for an odd count, lower-cased for an even one |
| Work.WordCount | core/work.py:43 | `len(text.split())`: the number of whitespace-separated words |
| Work.HashKey | core/work.py:39 | the hashed string `f"{text}:{count}"`: the text, a colon and the decimal count |
| Work.InputHash | core/work.py:38-40 | the input hash is the first 16 characters of the digest of `text:count` |
| Work.HashKeyInjective | core/work.py:39 | distinct (text, count) pairs give distinct hashed strings |
| Work.ResultOf | core/work.py:49-56 | the result counts the characters of the text and records the count as iterations |
| Work.PerformWork | core/work.py:28-56 | the loop of alternating case passes leaves the text upper-cased after an odd count and lower-cased after an even one (unchanged for a count of 0 or less), and computes `ResultOf`: that text, the word count, character count, iterations and hash |
| Work.ProcessedTextStep | core/work.py:33-35 | one more pass upper-cases after an even number of passes and lower-cases after an odd one |
| Work.HelloWorldExample | core/work.py:32-44 | "Hello World" with count 2 has 2 words, 11 characters and becomes "hello world" |
| Repository.RowValid | database/database.py:13-21 | the CHECK constraints: mode is "sync" or "async", status one of the four values, and callback status NULL or one of the three values |
| Repository.RecordToRow | database/repository.py:22-36 | a stored row meets the CHECK constraints on mode, status and callback status |
| Repository.RowToRecord | database/repository.py:176-192 | `_row_to_record` decodes a valid row into the record that lays out as that row |
| Repository.RecordRoundTrip | database/repository.py:176-192 | storing a record and reading it back gives the same record |
| Repository.RowToSummary | database/repository.py:161-171 | a listing entry carries the id, mode, status, times and callback status of the decoded row |
| Repository.NewRequest | database/repository.py:18-47 | a new record is PENDING, created now, with no output, error, completion or attempts, and a PENDING callback status iff a non-empty URL is given |
| Repository.ApplyResult | database/repository.py:58-72 | a result UPDATE overwrites status, output, error and completion time, and changes nothing else |
| Repository.ApplyCallback | database/repository.py:84-99 | a callback UPDATE overwrites the four callback columns, and changes nothing else |
| Repository.WithResult | database/repository.py:59-72 | a result UPDATE keeps the table valid, keeps its ids and leaves other rows alone; an unknown id changes nothing |
| Repository.WithCallback | database/repository.py:85-99 | a callback UPDATE keeps the table valid, keeps its ids and leaves other rows alone; an unknown id changes nothing |
| Repository.CallbackWriteOverwrites | database/repository.py:85-99 | of two successive callback writes only the last is visible |
| Repository.ResultWriteOverwrites | database/repository.py:59-72 | of two successive result writes only the last is visible |
| Repository.WritesTouchDisjointColumns | database/repository.py:62-89 | a result write keeps the callback columns, and a callback write keeps status, output and completion time |
| Repository.Matching | database/repository.py:137-157 | the ids the listing selects: every id when no mode is given, otherwise those whose stored mode is the mode's value |
| Repository.NewestFirst | database/repository.py:143-153 | `ORDER BY created_at DESC`: every id is in the table and no id is created later than one before it |
| Repository.InsertNewestFirst | database/repository.py:137-157 | inserting an id into an ordering adds exactly that id |
| Repository.InsertKeepsBound | database/repository.py:137-157 | inserting keeps every id created no later than a bound |
| Repository.ConsKeepsNewestFirst | database/repository.py:137-157 | an id created no earlier than all others may lead a newest-first ordering |
| Repository.InsertKeepsNewestFirst | database/repository.py:137-157 | insertion keeps an ordering newest first |
| Repository.PageLength | database/repository.py:144-156 | a page holds at most `limit` rows and none beyond the total |
| Repository.SelectNewestFirst | database/repository.py:137-157 | the selection holds each id matching the mode filter exactly once, ordered by creation time, newest first |
| Repository.RequestStore.constructor | database/database.py:10-25 | the table starts empty and valid |
| Repository.RequestStore.CreateRequest | database/repository.py:11-47 | a new id gets the row of `NewRequest` and one logged insert; a duplicate id fails with the primary-key error and changes nothing |
| Repository.RequestStore.UpdateRequestResult | database/repository.py:50-73 | the table becomes `WithResult` of the update and the log records it |
| Repository.RequestStore.UpdateCallbackStatus | database/repository.py:76-100 | the table becomes `WithCallback` of the update and the log records it |
| Repository.RequestStore.GetRequest | database/repository.py:103-115 | None iff the id is absent, otherwise the stored record |
| Repository.RequestStore.ListRequests | database/repository.py:118-173 | total counts the rows matching the filter; the page is the `limit` summaries from `offset` of the newest-first ordering of exactly those rows |
| Callback.InNetworkRange | utils/callback.py:77 | for a well-formed network, `ip in net` iff same version and base <= ip < base + host size |
| Callback.BlockedRangesWellFormed | utils/callback.py:18-27 | each blocked network is a valid strict network: the prefix fits and no host bits are set |
| Callback.InNetwork | utils/callback.py:77 | `ip in net`: the same IP version, and the same prefix bits, that is the same quotient by the network's host size |
| Callback.DeniedBy | utils/callback.py:68-70 | the lower-cased hostname equals the blocked name or ends with "." followed by it |
| Callback.HostnameDenied | utils/callback.py:68-71 | the denylist scan refuses iff some listed name equals the lower-cased hostname or is a dot-suffix of it |
| Callback.AddressBlocked | utils/callback.py:76-78 | the range scan refuses iff the address lies in some blocked network |
| Callback.ValidateCallbackUrl | utils/callback.py:46-81 | a URL that does not parse is an invalid format; a URL is accepted iff it is http(s), has a non-empty hostname off the denylist, and is no IP literal inside a blocked network |
| Callback.ValidationError.Message | utils/callback.py:56-78 | the exception texts: "Invalid URL format: ", "Invalid scheme: <s>. Only http/https allowed.", "Missing hostname in URL", "Blocked hostname: " and "Blocked IP range: " followed by the hostname |
| Callback.SchemeAndHostnameRules | utils/callback.py:58-65 | a scheme other than http or https, the empty one included, gives the scheme error; a missing or empty hostname gives the hostname error |
| Callback.DeniedHostnameRule | utils/callback.py:67-71 | a denylisted name or subdomain, in any case, is refused as a blocked hostname before the IP check |
| Callback.BlockedAddressRule | utils/callback.py:73-78 | an IP literal off the denylist but inside a blocked network is refused as a blocked IP range |
| Callback.CapitalisedSubdomainDenied | utils/callback.py:68-71 | "API.LOCALHOST" is denied |
| Callback.LocalhostDenied | utils/callback.py:29-30 | "localhost" itself is denied |
| Callback.MetadataAddressDenied | utils/callback.py:32 | the metadata address "169.254.169.254" is denied as a name |
| Callback.SuffixWithoutDotNotDenied | utils/callback.py:70 | "notlocalhost" is not denied, because the suffix needs the dot |
| Callback.UpperCaseSubdomainRejected | utils/callback.py:67-71 | an https URL with hostname "API.LOCALHOST" is refused as a blocked hostname |
| Callback.SuffixWithoutDotAccepted | utils/callback.py:67-81 | an http URL with the non-IP hostname "notlocalhost" is accepted without resolution |
| Callback.BlockedAddressExamples | utils/callback.py:18-27 | 127.0.0.1, 10.1.2.3, 192.168.0.5, 169.254.169.254 and ::1 lie in blocked networks |
| Callback.MappedLoopbackNotBlocked | utils/callback.py:74-81 | `::ffff:127.0.0.1` lies in no blocked network |
| Callback.AttemptError | utils/callback.py:125-129 | a failed response records "HTTP <code>: " followed by the first 200 characters of the body; a transport error records its text |
| Callback.Succeeded | utils/callback.py:114 | an attempt succeeds exactly when it got an HTTP response with a status code below 400; a transport error never succeeds |
| Callback.FailuresBeforeSuccess | utils/callback.py:105-123 | counts the attempts before the first status below 400, which all failed; the one after them succeeded |
| Callback.PendingWrites | utils/callback.py:132-138 | failed attempt i writes PENDING with attempt number i and that attempt's error |
| Callback.PendingUpdate | utils/callback.py:132-138 | the write after failed attempt i: PENDING, attempt number i, that attempt's error, no sending time |
| Callback.FinalUpdate | utils/callback.py:114-152 | the last write: SENT with the first successful attempt's number and the sending time, or FAILED with 5 attempts and "Max retries (5) exhausted. Last error: " + the fifth error |
| Callback.DeliveryWrites | utils/callback.py:104-152 | every write of a delivery in order: the PENDING write of each failed attempt before the first success, then the final write |
| Callback.AttemptsMade | utils/callback.py:105 | a delivery makes between 1 and 5 POSTs |
| Callback.BackoffDelays | utils/callback.py:140-144 | the sleep after failed attempt i is 1 * 2^(i-1) seconds |
| Callback.PayloadFor | utils/callback.py:95-102 | the payload is COMPLETED iff a result is passed, otherwise FAILED, and carries the id, result, error and time |
| Callback.SendCallbackWithRetry | utils/callback.py:84-154 | returns true iff some attempt succeeds; makes one POST of the same payload per attempt up to the first success; sleeps 1, 2, 4, 8 only after non-final failures; performs exactly the PENDING writes and then the SENT or FAILED write; the table ends with that last write |
| Callback.AttemptDelivery | utils/callback.py:104-144 | the attempt loop: stops at the first status below 400 after writing SENT with that attempt's number and the sending time; otherwise writes PENDING with each attempt's number and error, and after five failures returns the fifth error with the table showing only the last PENDING write |
| Callback.RecordFailedAttempt | utils/callback.py:124-138 | a failed attempt adds exactly its PENDING write to the log, and the table then shows that write in place of the earlier PENDING ones |
| Callback.LaterWriteOverwrites | utils/callback.py:132-138 | a later callback write hides all the PENDING writes before it |
| Callback.DeliveryWritesShape | utils/callback.py:105-154 | the writes of a delivery number the attempts 1, 2, ... in order; every write but the last is PENDING with an error; the last is SENT or FAILED |
| Callback.DeliveryFinalWrite | utils/callback.py:114-152 | the final write is SENT iff some attempt succeeds, with the first successful attempt's number and the sending time; otherwise FAILED, 5 attempts, "Max retries (5) exhausted. Last error: " + the fifth error |
| Callback.FirstSuccess | utils/callback.py:114-123 | the first successful attempt ends the count of failures |
| Callback.FailuresIgnoreLaterOutcomes | utils/callback.py:114-123 | outcomes after a success never influence the count |
| Callback.DeliveryIgnoresLaterOutcomes | utils/callback.py:114-123 | two deliveries that agree up to a success perform the same writes |
| Callback.BackoffSchedule | utils/callback.py:140-144 | the schedule is 1, 2, 4 and 8 seconds |
| Lifecycle.ProcessingUpdate | routes/sync.py:33-36 | the PROCESSING write clears output and error |
| Lifecycle.FinishedUpdate | routes/async_.py:29-49 | the write after the work is COMPLETED with the result iff the work returns, otherwise FAILED with the exception text |
| Lifecycle.RunAndRecord | routes/async_.py:19-49 | writes PROCESSING, runs the work and writes its outcome; the table shows only the second write |
| Lifecycle.ProcessingStampsCompletion | database/repository.py:58-69 | the PROCESSING write already sets the completion time and keeps the callback status |
| Lifecycle.FinishedRecord | routes/sync.py:31-60 | after the two writes the record is COMPLETED with the result or FAILED with the error, completed at the second write |
| SyncRoute.SyncWrites | routes/sync.py:25-60 | the writes of a new sync request in order: the insert, PROCESSING, then COMPLETED or FAILED |
| SyncRoute.SyncWritesInOrder | routes/sync.py:25-60 | the insert followed by the two result writes is exactly `SyncWrites` |
| SyncRoute.SyncEndpoint | routes/sync.py:14-61 | insert, PROCESSING, then the outcome; returns the result, or a 500 "Work processing failed: <error>"; a duplicate id gives a bare 500 and writes nothing |
| SyncRoute.SyncNeverCallsBack | routes/sync.py:25-29 | a sync request has no callback URL or status and makes no callback write |
| SyncRoute.SyncFinalRecord | routes/sync.py:25-60 | a sync record ends with the outcome of the work and leaves all other rows unchanged |
| AsyncRoute.BackgroundTasks.constructor | routes/async_.py:60 | the task queue starts empty |
| AsyncRoute.BackgroundTasks.AddTask | routes/async_.py:85 | `add_task` appends the task without running it |
| AsyncRoute.AsyncRecord | routes/async_.py:77-82 | an accepted async request is stored PENDING with its callback URL, and a PENDING callback status iff the URL is non-empty |
| AsyncRoute.AsyncEndpoint | routes/async_.py:59-91 | a refused URL gives 400 "Invalid callback URL: <reason>" with nothing changed; otherwise one insert, one queued task and the PENDING acknowledgement |
| AsyncRoute.TaskWrites | routes/async_.py:15-56 | the writes of a background task in order: PROCESSING, COMPLETED or FAILED, then the delivery's writes |
| AsyncRoute.TaskWritesInOrder | routes/async_.py:15-56 | the two result writes followed by the delivery's writes are exactly `TaskWrites` |
| AsyncRoute.TaskPayload | routes/async_.py:36-56 | the delivered payload carries the result iff the work returned, otherwise FAILED and the exception text |
| AsyncRoute.TaskPayloadDelivered | routes/async_.py:30-56 | the payload built from the recorded outcome is the task's payload: the result when the work completed, the exception text when it raised |
| AsyncRoute.ProcessAsyncWork | routes/async_.py:15-56 | the task writes PROCESSING, the outcome, then the delivery's writes; every POST carries the task's payload |
| AsyncRoute.TaskFinalRecord | routes/async_.py:15-56 | after the task the record shows the work's outcome, a callback status of SENT iff some attempt succeeded (never PENDING), 1..5 attempts, and unchanged id, input, creation time and URL |
| LoadGenerator.CountSuccesses | tools/load_generator.py:36-37 | no more successes than results |
| LoadGenerator.CountFailures | tools/load_generator.py:39-40 | the number of failed results |
| LoadGenerator.SuccessLatencies | tools/load_generator.py:36-38 | the latencies of the successful results, in arrival order |
| LoadGenerator.TallyConsistent | tools/load_generator.py:29-40 | successes plus failures is the number of results, with one latency per success |
| LoadGenerator.Insert | tools/load_generator.py:45 | inserting adds exactly one element |
| LoadGenerator.InsertAscending | tools/load_generator.py:45 | insertion keeps a list ascending |
| LoadGenerator.Sort | tools/load_generator.py:45 | `sorted(data)` is a permutation of data |
| LoadGenerator.SortAscending | tools/load_generator.py:45 | `sorted(data)` is ascending |
| LoadGenerator.Trunc | tools/load_generator.py:47 | `int(x)` truncates toward zero |
| LoadGenerator.PercentileRanks | tools/load_generator.py:46-48 | `k = (n - 1) * p / 100`, `f = int(k)`, and `c = f + 1` unless that is past the last index, in which case `c = f` |
| LoadGenerator.RanksInBounds | tools/load_generator.py:46-48 | for 0 <= p <= 100 both indices lie in [0, n-1], and c = f + 1 unless f is the last index |
| LoadGenerator.RanksMonotone | tools/load_generator.py:46-47 | a higher percentage gives a rank k and an index f that are no lower |
| LoadGenerator.LoadTestStats.constructor | tools/load_generator.py:25-32 | counters start at 0 with no latencies |
| LoadGenerator.LoadTestStats.AddResult | tools/load_generator.py:34-40 | the total rises by 1; a success raises `successful` and appends its latency; a failure raises `failed` only |
| LoadGenerator.LoadTestStats.CountersAgree | tools/load_generator.py:29-40 | after any results, total = successful + failed and one latency per success |
| LoadGenerator.LoadTestStats.Percentile | tools/load_generator.py:42-49 | None iff the data is empty; otherwise a value between the smallest and the largest |
| LoadGenerator.LoadTestStats.Summary | tools/load_generator.py:51-61 | reports the counters; the success rate is `SuccessRateOf(successful, total)`, i.e. rate * total = successful * 100, or "N/A" iff there were no requests; the 50th, 95th and 99th latency percentiles are `Percentile` of the latencies, or None iff there are none |
| LoadGenerator.LoadTestStats.SummaryInRange | tools/load_generator.py:51-61 | after any results the reported rate lies between 0 and 100, and the percentiles satisfy min <= p50 <= p95 <= p99 <= max of the latencies |
| LoadGenerator.Interpolated | tools/load_generator.py:46-49 | the interpolation lies between the values at f and c, and is the value at f when the rank is whole |
| LoadGenerator.InterpolatedMonotone | tools/load_generator.py:46-49 | on sorted values, a higher percentage never gives a lower percentile |
| LoadGenerator.SuccessRateOf | tools/load_generator.py:57 | "N/A" iff no requests; otherwise rate * total = successful * 100 |
| LoadGenerator.SuccessRateInRange | tools/load_generator.py:57 | the rate lies between 0 and 100 |
| LoadGenerator.InterpolatedExtremes | tools/load_generator.py:46-49 | the interpolated 0th percentile is the first sorted value and the 100th the last |
| LoadGenerator.PercentileExtremes | tools/load_generator.py:42-49 | the 0th percentile is the minimum and the 100th the maximum |
| LoadGenerator.SortedBounds | tools/load_generator.py:45 | every value lies between the first and the last sorted values |
| LoadGenerator.SortPermutes | tools/load_generator.py:45 | every input value is still present after `sorted()` |

## Left out

- HTTP serving, FastAPI routing and `main.py`. Request bodies are taken as already-validated values; `NewWorkInput` and `NewAsyncRequest` give the validation rules.
- `routes/requests.py`. It only wraps `get_request` (None becomes a 404) and `list_requests`, which are modelled.
- SQLite and the connection handling in `database/database.py`. Only the table's columns and CHECK constraints are kept, as `Row` and `RowValid`.
- Store writes never fail in the model. So the source path where an exception raised after COMPLETED (inside delivery) would overwrite the record with FAILED and deliver a second time is not modelled. Delivery itself catches every transport error.
- JSON serialisation. `input_data` and `output_data` are kept as values, not JSON text, and the async record keeps the work fields, with the URL in its own column. The dumped body in the source also contains `callback_url`.
- The URL parser, the IP-literal parser, SHA-256, `uuid4` and `utcnow` are parameters. Their own behaviour (such as `urlparse` lower-casing the hostname) is not modelled.
- `PyStr.Upper` and `PyStr.Lower` map ASCII letters only. Python's full Unicode case mapping is not modelled.
- `httpx`, the 10-second timeout and reading the response body. Each attempt's outcome is an input.
- `asyncio.sleep` and the background scheduling. Delays are returned as a list, and the background task is a method called after the acknowledgement.
- `processing_time_ms`, the simulated 200 ms delay and timing in `perform_work`. They are not part of `WorkResult` here.
- Logging throughout.
- The load generator's request sending (`aiohttp`), semaphore, `asyncio.gather`, argument parsing and printing.
- Floating point. Latencies and percentiles are exact reals; `round(…, 2)` and the `"{:.1f}%"` formatting of the success rate are not modelled.
- LoadGenerator.LoadTestStats.Percentile: requires 0 <= p <= 100. The source accepts any p, but only calls it with 50, 95 and 99. Outside that range its indices can leave the list.
