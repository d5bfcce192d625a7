# lava-rpc-monitor, modelled in Dafny

This project models the measurement core of lava-rpc-monitor. The monitor polls a JSON-RPC
endpoint and publishes health metrics. The model covers:

- **The outbound rate limiter.** At most 300 grants in any trailing 10-second window. Callers wait and retry, and give up after 20 s by default.
- **The JSON-RPC client.**
  - It builds the request envelope of section 4 of the JSON-RPC 2.0 Specification, with a request id that increases by one per sent request.
  - It classifies the reply or the thrown exception into a call record, following the result/error alternatives of sections 5 and 5.1.
- **The metrics service.**
  - A window of the last 100 call records.
  - The snapshot computed from that window and the previous snapshot.
  - The polling cycle, which makes the `eth_blockNumber`, `eth_chainId` and `eth_syncing` calls.
  - The start/stop poller, `getLatestMetrics` and the reset.
- **The decision logic of four dashboard components:**
  - the response-time histogram;
  - the status light;
  - the success-rate chart history;
  - the syncing-progress panel.

The backend's module-level state is explicit here. That state is the grant list, the request counter, the record window, the latest snapshot and the interval handle.

- **Clock and sleeping.** The clock is a parameter (`now`). Sleeping means moving it forward.
- **HTTP exchange.** It is an input: a status and a parsed body, or a thrown error.
- **Broadcast sink.** It is the list of every snapshot published.
- **The retry loop's surroundings.** `RateLimiter.Wake` describes what happens around each sleep of the retry loop: how late the timer fires, and how many other acquirers try first.

Modules follow the source files:

- `Wrappers`: `Option`.
- `Json`: parsed JSON values and the JavaScript operations the core applies to them (truthiness, `in`, property access, `JSON.stringify`).
- `Decimal`: integer printing.
- `Types`: `types.ts`.
- `RateLimiter`: `rateLimiter.ts`.
- `RpcService`: `rpcService.ts`.
- `MetricsService`: `metricsService.ts`.
- One module per component: `ResponseTimeHistogram`, `StatusIndicator`, `SuccessRateChart`, `SyncingStatusDisplay`.

Where the code and the system's written design differ, the model follows the code:

- **errorMessages.** The snapshot keeps the *first* ten error lines of the window, newest of those first. It does not keep the ten most recent.
- **Rate-limiter timeout.** The timeout escapes `sendJsonRpcRequest` as a rejected promise; it is not recorded as a failed call record. The cycle logs it and appends nothing for that call. No request id is used up.
- **Retry sleep.** After a refusal the waiter sleeps `max(100 ms, time until the oldest grant leaves the window + 50 ms)`. It does not sleep the minimum of the two.
- **Stop during startup.** A `stop` that arrives while the first, startup cycle is still running finds no interval to clear. The interval is armed when that cycle ends (`MetricsService.StopDuringStartupIsOverridden`).
- **Restart after stop.** Stopping is not final: a later `start` polls again.

JavaScript's `null` is `None` throughout. A successful `eth_syncing` call that answers JSON `null` sets the snapshot's `syncingStatus` to `None`, the same value the initial snapshot holds, as `MetricsService.NullToNone` makes explicit.

## Model

| member | source | states |
|---|---|---|
| RateLimiter.Prune | lava-rpc-monitor/packages/backend/src/utils/rateLimiter.ts:9-11 | the result is a suffix of the list; every dropped grant is expired; the first kept one is live |
| RateLimiter.PruneIsLiveFilter | lava-rpc-monitor/packages/backend/src/utils/rateLimiter.ts:9-11 | on a sorted list, pruning from the front keeps exactly the live grants, in order |
| RateLimiter.IsRequestAllowed | lava-rpc-monitor/packages/backend/src/utils/rateLimiter.ts:6-19 | on a sorted list: granted iff fewer than 300 grants are live; the list becomes the live grants, plus `now` when granted; a grant ends the list with `now`; the list never exceeds 300 |
| RateLimiter.AttemptKeepsValid | lava-rpc-monitor/packages/backend/src/utils/rateLimiter.ts:13-16 | an attempt keeps the list at most 300 long, sorted, and with no grant after the attempt's instant |
| RateLimiter.CurrentRequestCount | lava-rpc-monitor/packages/backend/src/utils/rateLimiter.ts:38-41 | the count of live grants never exceeds the length of the list it reads |
| RateLimiter.CountNeverRisesWithTime | lava-rpc-monitor/packages/backend/src/utils/rateLimiter.ts:38-41 | as time moves forward the count of live grants can only fall |
| RateLimiter.ResetRateLimiterState | lava-rpc-monitor/packages/backend/src/utils/rateLimiter.ts:43-45 | after a reset the list is valid and the count is 0 at every instant |
| RateLimiter.ResetThenGranted | lava-rpc-monitor/packages/backend/tests/rateLimiter.test.ts:56-64 | after a reset the next attempt is granted and the count becomes 1 |
| RateLimiter.BurstAttemptGranted | lava-rpc-monitor/packages/backend/tests/rateLimiter.test.ts:18-23 | with i < 300 grants at one instant, another attempt then is granted and the count is i + 1 |
| RateLimiter.FullWindowRefusedUntilOldestExpires | lava-rpc-monitor/packages/backend/tests/rateLimiter.test.ts:108-130 | after 300 grants at t, an attempt is granted iff at least 10 s have passed since t |
| RateLimiter.SleepDelay | lava-rpc-monitor/packages/backend/src/utils/rateLimiter.ts:29-33 | the sleep is at least 100 ms and, when the list is full, lasts until 50 ms past the oldest grant's expiry |
| RateLimiter.StepWait | lava-rpc-monitor/packages/backend/src/utils/rateLimiter.ts:23-34 | one pass: permitted iff the attempt is granted; timed out iff refused with more than maxWait elapsed; otherwise a retry at least 100 ms later; the list invariant is kept |
| RateLimiter.WaitFrom | lava-rpc-monitor/packages/backend/src/utils/rateLimiter.ts:21-35 | the loop ends; a permission comes no earlier than the start and its grant is the newest list entry; a timeout comes only once more than maxWait has elapsed |
| RateLimiter.WaitForRateLimitPermission | lava-rpc-monitor/packages/backend/src/utils/rateLimiter.ts:21-36 | a permission is recorded as the newest grant; a timeout is raised only after more than maxWait |
| RateLimiter.WaitKeepsValid | lava-rpc-monitor/packages/backend/src/utils/rateLimiter.ts:21-35 | waiting keeps the list at most 300 long and sorted |
| RateLimiter.SoleWaiterIsPermitted | lava-rpc-monitor/packages/backend/src/utils/rateLimiter.ts:29-34 | a waiter that meets no other acquirers always gets a permission: its sleep outlasts the oldest grant |
| RateLimiter.BurstWaitGranted | lava-rpc-monitor/packages/backend/tests/rateLimiter.test.ts:18-23 | from i < 300 grants at one instant, a wait then is granted at once and the count is i + 1 |
| RateLimiter.RunKeepsLiveGrants | lava-rpc-monitor/packages/backend/src/utils/rateLimiter.ts:6-19 | over attempts at non-decreasing instants, the list is exactly the grants still live at the last instant, and stays valid |
| RateLimiter.NeverMoreThanMaxInAnyWindow | lava-rpc-monitor/packages/backend/src/utils/rateLimiter.ts:1-16 | over attempts at non-decreasing instants, no 10 s window ever holds more than 300 grants |
| Types.EncodeErrorObject | lava-rpc-monitor/packages/backend/src/types.ts:9-13 | an encoded error object is truthy, has a `code` and has `message` as a string |
| Types.EncodeResponse | lava-rpc-monitor/packages/backend/src/types.ts:15-29 | a success reply carries its `result`; an error reply carries no `result` and carries its error object under `error` |
| Types.SyncingRoundTrip | lava-rpc-monitor/packages/backend/src/types.ts:41-47 | decoding an encoded `eth_syncing` result gives it back |
| RpcService.ClassifyReply | lava-rpc-monitor/packages/backend/src/services/rpcService.ts:49-62 | success iff the body has a `result`, then copied; otherwise a truthy `error` is copied verbatim; otherwise the invalid-structure message; a truthy primitive body fails with the `in` operator's TypeError message; the status is kept; the record is well-formed |
| RpcService.FalsyBodyIsInvalidStructure | lava-rpc-monitor/packages/backend/src/services/rpcService.ts:53-61 | a falsy body (empty string, `false`, `0`, `null`) fails the `responseData &&` guard and gives the invalid-structure message, with the status |
| RpcService.AxiosErrorValue | lava-rpc-monitor/packages/backend/src/services/rpcService.ts:69-84 | the server's nested `error` is kept exactly when it is an object with `message` or `code`; otherwise the error carries the client's message |
| RpcService.ClassifyException | lava-rpc-monitor/packages/backend/src/services/rpcService.ts:63-89 | always a well-formed failure; a status iff an HTTP-client error carried a response; the error value for each of the three kinds of throw |
| RpcService.SendJsonRpcRequest | lava-rpc-monitor/packages/backend/src/services/rpcService.ts:19-92 | a request is sent iff a slot was granted, with the `2.0` envelope and the current id, and the counter goes up by one; a timeout rejects the call after more than 20 s, consuming no id; a record is well-formed and named after the method; it starts at the instant the rate limiter granted the slot (the newest grant), ends the exchange's latency later, and is exactly the classification of the reply or exception the exchange produced |
| RpcService.SendKeepsLimiterValid | lava-rpc-monitor/packages/backend/src/services/rpcService.ts:23 | a call keeps the rate limiter's invariant |
| RpcService.GetBlockNumber | lava-rpc-monitor/packages/backend/src/services/rpcService.ts:94-99 | sends `eth_blockNumber` with `[]` |
| RpcService.GetChainId | lava-rpc-monitor/packages/backend/src/services/rpcService.ts:101-106 | sends `eth_chainId` with `[]` |
| RpcService.GetSyncingStatus | lava-rpc-monitor/packages/backend/src/services/rpcService.ts:108-113 | sends `eth_syncing` with `[]` |
| RpcService.SendAll | lava-rpc-monitor/packages/backend/src/services/rpcService.ts:17-29 | over several calls the ids sent are consecutive from the counter, and the counter ends past the last one |
| RpcService.OneIdPerFulfilledCall | lava-rpc-monitor/packages/backend/src/services/rpcService.ts:23-29 | exactly one id is used per call that settles with a record |
| RpcService.RecordsMatchCalls | lava-rpc-monitor/packages/backend/src/services/rpcService.ts:33-36 | each record names the method of the call at its position |
| RpcService.SentIdsStrictlyIncrease | lava-rpc-monitor/packages/backend/tests/rpcService.test.ts:165-182 | the i-th id sent is the counter plus i, so ids strictly increase |
| RpcService.SuccessResponseIsSuccess | lava-rpc-monitor/packages/backend/tests/rpcService.test.ts:20-45 | a success response gives a successful record with its result, no error and the status |
| RpcService.ErrorResponseIsFailure | lava-rpc-monitor/packages/backend/tests/rpcService.test.ts:47-62 | an error response gives a failed record holding the error object as sent, no result, and the status |
| RpcService.ServerErrorSurvivesHttpFailure | lava-rpc-monitor/packages/backend/src/services/rpcService.ts:66-78 | an HTTP error whose body is a JSON-RPC error response keeps the server's error object and the status |
| RpcService.ServerErrorVersusPlainError | lava-rpc-monitor/packages/backend/tests/rpcService.test.ts:77-96 | for the test's HTTP 500 reply, a real HTTP-client error yields "Server Error" and status 500; the same exception as a plain `Error` yields the client message and no status |
| MetricsService.AddCallRecord | lava-rpc-monitor/packages/backend/src/services/metricsService.ts:29-34 | from a window within capacity, the result is the last 100 of the window plus the record, and ends with the record |
| MetricsService.WindowKeepsLastAppended | lava-rpc-monitor/packages/backend/src/services/metricsService.ts:29-34 | after any sequence of additions the window holds exactly the last 100 records, in insertion order (all of them while fewer were added) |
| MetricsService.ErrorText | lava-rpc-monitor/packages/backend/src/services/metricsService.ts:78-79 | the error's `message` when it is a string, its JSON text otherwise |
| MetricsService.ErrorLines | lava-rpc-monitor/packages/backend/src/services/metricsService.ts:77-83 | there are no more error lines than failed records |
| MetricsService.ErrorLinesFromErrorRecords | lava-rpc-monitor/packages/backend/src/services/metricsService.ts:77-83 | every error line is `[method]: text` of some failed record with a truthy error |
| MetricsService.LastStringResult | lava-rpc-monitor/packages/backend/src/services/metricsService.ts:60-73 | the string result of the last successful call of that method whose result is a string; the previous value when there is none; a changed value always comes from such a call |
| MetricsService.LastSyncing | lava-rpc-monitor/packages/backend/src/services/metricsService.ts:74-76 | the result of the last successful `eth_syncing` call, a JSON `null` read as `null`; the previous value when there is none; a changed value always comes from such a call |
| MetricsService.RoundQuotient | lava-rpc-monitor/packages/backend/src/services/metricsService.ts:94-95 | the result is an integer nearest the quotient, an exact half going away from zero (up for a non-negative quotient), and a non-negative quotient rounds to a non-negative integer |
| MetricsService.RoundingIsUnique | lava-rpc-monitor/packages/backend/src/services/metricsService.ts:94-95 | only one integer is the nearest with a half going away from zero, so that rounding fixes every figure stated with it |
| MetricsService.RateTenths | lava-rpc-monitor/packages/backend/src/services/metricsService.ts:87-94 | the rate in tenths is successes/total × 1000 rounded to the nearest integer, an exact half going up, and lies in 0..1000; 0 for no records |
| MetricsService.AverageMs | lava-rpc-monitor/packages/backend/src/services/metricsService.ts:88-95 | the average is the summed duration over the success count rounded to the nearest integer, an exact half going away from zero (so 5 ms over 2 successes gives 3), or 0 with no successes |
| MetricsService.CalculateMetrics | lava-rpc-monitor/packages/backend/src/services/metricsService.ts:36-104 | the counts add up; the rate and average are the roundings of `RateTenths` and `AverageMs`, an exact half going away from zero; the error list is the first min(n, 10) error lines, reversed; the records are the window reversed; the sticky fields follow the last matching success or keep the previous value |
| MetricsService.EmptyWindowSnapshot | lava-rpc-monitor/packages/backend/src/services/metricsService.ts:38-53 | an empty window gives zero figures and empty lists, and carries the sticky fields over |
| MetricsService.ScanRecords | lava-rpc-monitor/packages/backend/src/services/metricsService.ts:56-84 | the single pass computes the success count, summed duration, first ten error lines and the sticky values of the reference definitions |
| MetricsService.ComputeMetrics | lava-rpc-monitor/packages/backend/src/services/metricsService.ts:36-101 | the source's procedure yields exactly the snapshot `CalculateMetrics` defines |
| MetricsService.AllSuccessSnapshot | lava-rpc-monitor/packages/backend/src/services/metricsService.ts:86-96 | a window of successes only gives a 100.0 rate, no failures and no error lines, and an average that is the mean duration rounded |
| MetricsService.BlockNumberIsReported | lava-rpc-monitor/packages/backend/src/services/metricsService.ts:68-70 | a successful `eth_blockNumber` string result becomes the last block number |
| MetricsService.MixedRepliesSnapshot | lava-rpc-monitor/packages/backend/src/services/metricsService.ts:64-96 | a result reply then an error reply "boom" give 2 requests, 1 success, 1 failure, a 50.0 rate and the one line `[method]: boom` |
| MetricsService.SuccessThenFailure | lava-rpc-monitor/packages/backend/src/services/metricsService.ts:64-96 | a success followed by a failure carrying an error gives 2/1/1, a 50.0 rate and the failure's line as the only error message |
| MetricsService.FulfilledRecords | lava-rpc-monitor/packages/backend/src/services/metricsService.ts:116-122 | one record is kept per call that was not rejected |
| MetricsService.FulfilledInCallOrder | lava-rpc-monitor/packages/backend/src/services/metricsService.ts:110-122 | the kept records name, in order, the methods of the calls that were not rejected |
| MetricsService.PollingCycle | lava-rpc-monitor/packages/backend/src/services/metricsService.ts:106-128 | at most three records are added, in call order, onto the window kept to its last 100; the counter advances once per record; the snapshot is recomputed and published once; the poller is untouched |
| MetricsService.CyclePlan | lava-rpc-monitor/packages/backend/src/services/metricsService.ts:110-114 | a cycle's three calls are `eth_blockNumber`, `eth_chainId` and `eth_syncing`, in that order, each with its own inputs |
| MetricsService.GetLatestMetrics | lava-rpc-monitor/packages/backend/src/services/metricsService.ts:160-162 | in a service whose snapshot is in step with its window, the returned snapshot counts the window, its successes, and lists its records newest first |
| MetricsService.CycleKeepsCoherent | lava-rpc-monitor/packages/backend/src/services/metricsService.ts:90-101 | a polling cycle leaves the snapshot in step with the window it produces |
| MetricsService.StepKeepsCoherent | lava-rpc-monitor/packages/backend/src/services/metricsService.ts:133-177 | no event (start, startup end, tick, end of a tick's cycle, stop, reset) puts the snapshot out of step with the window |
| MetricsService.LatestDescribesWindow | lava-rpc-monitor/packages/backend/src/services/metricsService.ts:160-162 | from a fresh process, after any events, `getLatestMetrics` reports the window's size, its successes and its records newest first, with at most 100 records |
| MetricsService.PublishedSnapshotIsLatest | lava-rpc-monitor/packages/backend/src/services/metricsService.ts:160-162 | the snapshot a cycle publishes is what `getLatestMetrics` then returns, and it counts the whole window |
| MetricsService.ResetMetricsState | lava-rpc-monitor/packages/backend/src/services/metricsService.ts:164-179 | the window is emptied and the snapshot is the initial one: every count, the rate and the average zero, the error and record lists empty, the sticky fields null; the poller, counter and rate limiter are untouched and nothing is published |
| MetricsService.ResetForgetsStickyFields | lava-rpc-monitor/packages/backend/src/services/metricsService.ts:164-177 | after a reset, a cycle whose calls are all rejected publishes the initial snapshot |
| MetricsService.Step | lava-rpc-monitor/packages/backend/src/services/metricsService.ts:133-158 | a start with an interval recorded changes nothing, and otherwise launches one startup cycle; a settling startup runs one polling cycle and then arms and records a new interval only when none is recorded; a tick of a live interval launches one more running cycle and changes nothing else, and a tick of a cleared interval changes nothing; the end of a running cycle runs one polling cycle and counts one fewer running, whether or not the interval has been cleared since, and with no cycle running it changes nothing; a stop clears the record and removes that interval, changing no metrics; reset is `resetMetricsState` |
| MetricsService.SettleStartup | lava-rpc-monitor/packages/backend/src/services/metricsService.ts:140-144 | the end of the startup cycle runs one polling cycle, then arms and records a new interval only when none is recorded |
| MetricsService.StopRecorded | lava-rpc-monitor/packages/backend/src/services/metricsService.ts:150-154 | stopping with a recorded interval forgets the record and leaves that interval no longer live, changing no metrics |
| MetricsService.StepKeepsSingleTimer | lava-rpc-monitor/packages/backend/src/services/metricsService.ts:133-158 | every event keeps at most one interval alive, and it is the recorded one |
| MetricsService.RunKeepsSingleTimer | lava-rpc-monitor/packages/backend/src/services/metricsService.ts:133-158 | over any event sequence, at most one interval is alive |
| MetricsService.NeverTwoIntervals | lava-rpc-monitor/packages/backend/src/services/metricsService.ts:140-144 | from a fresh process, at most one interval ever runs |
| MetricsService.StoppedPollerIgnoresTicks | lava-rpc-monitor/packages/backend/src/services/metricsService.ts:150-154 | a stopped poller launches no cycle however many ticks elapse |
| MetricsService.StopEndsPolling | lava-rpc-monitor/packages/backend/src/services/metricsService.ts:150-158 | after a stop, later ticks change nothing and publish nothing |
| MetricsService.CycleInFlightOutlivesStop | lava-rpc-monitor/packages/backend/src/services/metricsService.ts:139-154 | a cycle launched before a stop still adds its records and publishes a snapshot after the stop, and the interval stays unrecorded |
| MetricsService.TicksOverlapCycles | lava-rpc-monitor/packages/backend/src/services/metricsService.ts:142 | ticks do not wait for earlier cycles: two ticks of a live interval leave two more cycles running and publish nothing yet |
| MetricsService.RedundantStartStopAreNoOps | lava-rpc-monitor/packages/backend/src/services/metricsService.ts:133-158 | a start while an interval is recorded, and a stop while none is, change nothing |
| MetricsService.StopDuringStartupIsOverridden | lava-rpc-monitor/packages/backend/src/services/metricsService.ts:140-144 | from any state with no interval recorded (a fresh process among them), a stop during the startup cycle is overridden: an interval is armed when that cycle ends |
| ResponseTimeHistogram.BucketIndex | lava-rpc-monitor/packages/frontend/src/components/graphical_vis/ResponseTimeHistogram.tsx:22-39 | the first bucket holding the duration, or none when no bucket holds it |
| ResponseTimeHistogram.BucketsPartition | lava-rpc-monitor/packages/frontend/src/components/graphical_vis/ResponseTimeHistogram.tsx:22-28 | every duration of at least 0 lies in exactly one bucket, a negative one in none |
| ResponseTimeHistogram.CountInFirstBucket | lava-rpc-monitor/packages/frontend/src/components/graphical_vis/ResponseTimeHistogram.tsx:34-39 | the inner loop bumps the first bucket holding the duration and no other |
| ResponseTimeHistogram.CountBuckets | lava-rpc-monitor/packages/frontend/src/components/graphical_vis/ResponseTimeHistogram.tsx:22-41 | the component's loop produces the bucket table with each count the number of successful records landing there |
| ResponseTimeHistogram.HistogramSnoc | lava-rpc-monitor/packages/frontend/src/components/graphical_vis/ResponseTimeHistogram.tsx:31-41 | one more record bumps its first bucket if it succeeded, and changes nothing if it failed |
| ResponseTimeHistogram.FailedRecordIsIgnored | lava-rpc-monitor/packages/frontend/src/components/graphical_vis/ResponseTimeHistogram.tsx:32 | a failed record changes no count |
| ResponseTimeHistogram.SuccessfulRecordCountsOnce | lava-rpc-monitor/packages/frontend/src/components/graphical_vis/ResponseTimeHistogram.tsx:33-39 | a successful record adds one to its first bucket and nothing elsewhere; a negative duration adds nothing |
| ResponseTimeHistogram.HistogramTotal | lava-rpc-monitor/packages/frontend/src/components/graphical_vis/ResponseTimeHistogram.tsx:31-41 | the counts sum to the successful records with a non-negative duration, at most the number of records |
| StatusIndicator.ErrorCount | lava-rpc-monitor/packages/frontend/src/components/StatusIndicator.tsx:9 | the number of error messages, 0 when the list is absent |
| StatusIndicator.Classify | lava-rpc-monitor/packages/frontend/src/components/StatusIndicator.tsx:9-27 | Loading iff no rate and no errors; Healthy iff a rate of at least 0.98 and no errors; Warning iff a rate of at least 0.90 that is not Healthy; Error otherwise |
| StatusIndicator.PercentageReadAsFraction | lava-rpc-monitor/packages/frontend/src/components/StatusIndicator.tsx:14-17 | a 50.0 percent rate with an error reads as Warning, and 1.0 percent without errors as Healthy |
| StatusIndicator.ClassifyPercent | lava-rpc-monitor/packages/frontend/src/components/StatusIndicator.tsx:13-27 | on the percentage scale: Healthy iff at least 98 and no errors; Error below 90; Warning only at 90 or above |
| StatusIndicator.PercentIsScaledFraction | lava-rpc-monitor/packages/frontend/src/components/StatusIndicator.tsx:13-27 | the percentage classification is the written one applied to the rate over 100 |
| StatusIndicator.PercentScaleExamples | lava-rpc-monitor/packages/frontend/src/components/StatusIndicator.tsx:13-23 | on the percentage scale 50.0 with an error is Error, 1.0 is Error, and 100.0 without errors is Healthy |
| StatusIndicator.NeverHealthyWithErrors | lava-rpc-monitor/packages/frontend/src/components/StatusIndicator.tsx:14-16 | with errors on record the light is never Healthy, on either scale |
| SuccessRateChart.Trim | lava-rpc-monitor/packages/frontend/src/components/graphical_vis/SuccessRateChart.tsx:25-28 | at most 30 points, the newest ones in order; a short history is unchanged |
| SuccessRateChart.Record | lava-rpc-monitor/packages/frontend/src/components/graphical_vis/SuccessRateChart.tsx:20-31 | a null rate changes nothing; a rate appends `{time: counter, rate}`, trims to 30 and advances the counter by one |
| SuccessRateChart.Render | lava-rpc-monitor/packages/frontend/src/components/graphical_vis/SuccessRateChart.tsx:19-32 | the effect runs exactly when the rate differs from the last one it ran for: then the history and counter are those `Record` produces, so a new non-null rate appends its point and advances the counter; otherwise nothing changes |
| SuccessRateChart.InitialConsistent | lava-rpc-monitor/packages/frontend/src/components/graphical_vis/SuccessRateChart.tsx:16-17 | the mounted state is consistent |
| SuccessRateChart.RenderKeepsConsistent | lava-rpc-monitor/packages/frontend/src/components/graphical_vis/SuccessRateChart.tsx:19-32 | every render keeps at most 30 points whose times are the consecutive counter values below the counter |
| SuccessRateChart.TimesStrictlyIncrease | lava-rpc-monitor/packages/frontend/src/components/graphical_vis/SuccessRateChart.tsx:17-30 | in a consistent history the times strictly increase |
| SuccessRateChart.RenderAllKeepsConsistent | lava-rpc-monitor/packages/frontend/src/components/graphical_vis/SuccessRateChart.tsx:13-32 | across any sequence of renders the history stays consistent and at most 30 long |
| SuccessRateChart.FullHistoryDropsOldest | lava-rpc-monitor/packages/frontend/src/components/graphical_vis/SuccessRateChart.tsx:24-28 | a full history drops its oldest point for the new one |
| SyncingStatusDisplay.ProgressMessage | lava-rpc-monitor/packages/frontend/src/components/SyncingStatusDisplay.tsx:21-24 | the line starts with the base message, followed by ` from N` exactly when the starting block parsed |
| SyncingStatusDisplay.Percentage | lava-rpc-monitor/packages/frontend/src/components/SyncingStatusDisplay.tsx:29-36 | the bar's percentage lies in 0..100; its exact value is pinned by the two range lemmas below |
| SyncingStatusDisplay.Render | lava-rpc-monitor/packages/frontend/src/components/SyncingStatusDisplay.tsx:10-36 | null gives N/A and false gives Synced, each iff; a sync shows its progress line, and a bar iff current, highest and starting parsed with highest positive and current at least starting; the bar's value is then `Percentage` of those three block numbers |
| SyncingStatusDisplay.DegenerateRangeIsComplete | lava-rpc-monitor/packages/frontend/src/components/SyncingStatusDisplay.tsx:30-36 | when highest is not above starting, the bar shows 100 |
| SyncingStatusDisplay.ProperRangeIsExactRatio | lava-rpc-monitor/packages/frontend/src/components/SyncingStatusDisplay.tsx:29-35 | otherwise the bar is exactly the covered share of the range, with current capped at highest |
| SyncingStatusDisplay.BarEnds | lava-rpc-monitor/packages/frontend/src/components/SyncingStatusDisplay.tsx:29-36 | at or past the highest block the bar is full; at the starting block it is empty |

## Left out

- **HTTP transport.** `axios.post`, its headers, the endpoint URL and the 10 s request timeout are not modelled. The exchange's outcome is an input (`RpcService.TransportOutcome`), and the elapsed time is an input latency.
- **Clock.** `Date.now` is a parameter. The catch path's separate reading of the end time is the same input latency.
- **Timers.** `setTimeout` is modelled as time moving forward. Each `setInterval` tick is an event (`MetricsService.Event`). So is the end of the cycle it launched.
- **Concurrency.** The three calls of a cycle run concurrently under `Promise.allSettled` in the source. Here they run one after another in call order. Other acquirers that compete with a sleeping waiter are `RateLimiter.Wake.rivals`, attempts made at its wake-up instant.
- **WebSocket server and broadcast.** The server, the broadcast sink and the dashboard's client connection are I/O. The sink is the `published` list.
- **Console logging, process start-up and shutdown.** These have no effect on state.
- **Number formatting.** Floating point and `toFixed`/`parseFloat` are modelled as exact arithmetic. The success rate is an integer number of tenths of a percent. Rounding is to the nearest value, ties away from zero; binary rounding error is not modelled.
- **JSON numbers.** They are integers. The core only copies or prints them, and `JSON.stringify` of a fractional or very large number is not modelled.
- **Hexadecimal parsing.** `parseInt(s, 16)` in the syncing panel is not modelled. The panel receives already-parsed block numbers, with `None` for NaN.
- **Syncing panel formatting.** The percentage label's `toFixed(0)` and all JSX and chart rendering are left out.
- **Integer precision.** Block numbers beyond 2^53 lose precision in JavaScript; not modelled.
- **getLatestMetrics.** It returns a copy. Values are immutable here, so the copy is the snapshot itself.
- **Display-only components.** `App.tsx`, `useRpcMetrics.ts`, `ErrorLogDisplay.tsx`, `SuccessRateDisplay.tsx`, `AvgResponseTimeDisplay.tsx`, `BlockNumberDisplay.tsx`, `ChainIdDisplay.tsx` and the frontend's type file are not part of this model.
- **Timeout message.** The rate-limit timeout's error message text is not modelled. A timeout is only a rejection with its time.
- MetricsService.Step: cycles launched by different ticks may overlap and end in any order, and a cycle still running at a stop still lands. But each cycle makes its three calls and adds its records as one step at its end. So the calls of two overlapping cycles never interleave on the rate limiter or the request counter, and the inputs of a cycle are those at its end.
- RateLimiter.CurrentRequestCount: states the bound against the list length. Its relation to time is in `CountNeverRisesWithTime`.

## Findings

| source | as written | input that shows it | evidently intended | confidence | as-written member | corrected member |
|---|---|---|---|---|---|---|
| lava-rpc-monitor/packages/frontend/src/components/StatusIndicator.tsx:14-17 | compares the success rate with 0.98 and 0.90, as if it were a fraction; the dashboard passes it the snapshot's `successRate` (`App.tsx:24`), a percentage from 0 to 100 (`metricsService.ts:87,94`) | a 50.0 rate with one error shows Warning instead of Error; a 1.0 rate without errors shows Healthy | thresholds of 98 and 90 on the percentage scale | medium; not executed | StatusIndicator.PercentageReadAsFraction | StatusIndicator.ClassifyPercent |
