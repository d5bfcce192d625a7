/** The JSON-RPC client: it waits for a rate-limiter slot, builds the
    request envelope with the next request id, and turns the transport's
    outcome (a reply or a thrown exception) into a call record. The HTTP
    exchange itself is an input: the reply's status and parsed body, or
    the exception it threw. */
module RpcService {

  import opened Wrappers
  import opened Json
  import opened Types
  import RateLimiter
  import Decimal

  const JsonRpcVersion := "2.0"
  const BlockNumberMethod := "eth_blockNumber"
  const ChainIdMethod := "eth_chainId"
  const SyncingMethod := "eth_syncing"
  const InvalidStructureMessage := "Invalid JSON-RPC response structure"
  const UnknownErrorMessage := "An unknown error occurred"

  /** The module-level request counter: the id the next request gets. */
  datatype RpcState = RpcState(nextId: int)

  const InitialRpcState := RpcState(1)

  /** An HTTP response: its status and its parsed body. */
  datatype HttpResponse = HttpResponse(status: int, data: Json)

  /** What the HTTP client can throw: its own error (with the server's
      response when there was one), any other `Error`, or a value that is
      not an `Error` at all. */
  datatype Thrown =
    | AxiosError(message: string, response: Option<HttpResponse>)
    | PlainError(message: string)
    | NonError

  datatype TransportOutcome =
    | Replied(response: HttpResponse)
    | Threw(exception: Thrown)

  /** The message of the TypeError JavaScript raises for `key in v` when
      `v` is a primitive. */
  function InOperatorMessage(key: string, v: Json): string {
    var text :=
      match v
      case JString(s) => s
      case JBool(b) => if b then "true" else "false"
      case JNumber(n) => Decimal.IntToString(n)
      case _ => Stringify(v);
    "Cannot use 'in' operator to search for '" + key + "' in " + text
  }

  /** A record is well-formed when a success carries no error and a
      failure always carries a truthy error value. */
  predicate WellFormed(r: CallRecord) {
    if r.isSuccess then r.error.None? else r.error.Some? && Truthy(r.error.value) && r.result.None?
  }

  /** The record for a reply that arrived. A body with a `result` member
      is a success whatever else it holds; otherwise a truthy `error`
      member is copied verbatim; otherwise the reply is malformed. A
      truthy primitive body makes the `in` test itself throw, which the
      client's own handler turns into a failure. The HTTP status is kept
      in every case. */
  function ClassifyReply(methodName: string, startTime: int, endTime: int, resp: HttpResponse): (r: CallRecord)
    ensures r.methodName == methodName && r.startTime == startTime && r.endTime == endTime
    ensures r.statusCode == Some(resp.status)
    ensures WellFormed(r)
    ensures r.isSuccess <==> HasKey(resp.data, "result")
    ensures r.isSuccess ==> r.result == Get(resp.data, "result")
    ensures !HasKey(resp.data, "result") && Truthy(resp.data) && IsPrimitive(resp.data) ==>
              r.error == Some(MessageObject(InOperatorMessage("result", resp.data)))
    ensures !HasKey(resp.data, "result") && HasKey(resp.data, "error") && Truthy(Get(resp.data, "error").value) ==>
              r.error == Get(resp.data, "error")
    ensures !HasKey(resp.data, "result") && !(Truthy(resp.data) && IsPrimitive(resp.data))
            && !(HasKey(resp.data, "error") && Truthy(Get(resp.data, "error").value)) ==>
              r.error == Some(MessageObject(InvalidStructureMessage))
  {
    var body := resp.data;
    var status := Some(resp.status);
    if Truthy(body) && IsPrimitive(body) then
      CallRecord(methodName, startTime, endTime, false, status,
                 Some(MessageObject(InOperatorMessage("result", body))), None)
    else if Truthy(body) && HasKey(body, "result") then
      CallRecord(methodName, startTime, endTime, true, status, None, Get(body, "result"))
    else if Truthy(body) && HasKey(body, "error") && Truthy(Get(body, "error").value) then
      CallRecord(methodName, startTime, endTime, false, status, Get(body, "error"), None)
    else
      CallRecord(methodName, startTime, endTime, false, status, Some(MessageObject(InvalidStructureMessage)), None)
  }

  /** A server error object worth keeping: a truthy object value with a
      `message` or a `code` member. */
  predicate IsErrorShaped(j: Json) {
    Truthy(j) && IsObjectType(j) && (HasKey(j, "message") || HasKey(j, "code"))
  }

  /** Whether the body of an HTTP-client error's response carries an
      `error` member worth keeping. */
  predicate CarriesServerError(response: Option<HttpResponse>) {
    response.Some? && HasKey(response.value.data, "error")
    && IsErrorShaped(Get(response.value.data, "error").value)
  }

  /** The error value the client derives from an HTTP-client error: the
      server's nested `error` object when the response body carries one
      with a `message` or `code`, else the client error's own message. */
  function AxiosErrorValue(message: string, response: Option<HttpResponse>): (e: Json)
    ensures Truthy(e)
    ensures CarriesServerError(response) ==> Get(response.value.data, "error") == Some(e)
    ensures !CarriesServerError(response) ==> GetString(e, "message") == Some(message)
  {
    if response.Some? && Truthy(response.value.data) && IsObjectType(response.value.data)
       && HasKey(response.value.data, "error") then
      var nested := Get(response.value.data, "error").value;
      if Truthy(nested) && IsObjectType(nested) && (HasKey(nested, "message") || HasKey(nested, "code"))
      then nested
      else MessageObject(message)
    else MessageObject(message)
  }

  /** The record for a call whose transport threw: always a failure; the
      status comes from the server's response when there was one. */
  function ClassifyException(methodName: string, startTime: int, endTime: int, e: Thrown): (r: CallRecord)
    ensures r.methodName == methodName && r.startTime == startTime && r.endTime == endTime
    ensures !r.isSuccess && WellFormed(r)
    ensures r.statusCode.Some? <==> e.AxiosError? && e.response.Some?
    ensures r.statusCode.Some? ==> r.statusCode.value == e.response.value.status
    ensures e.AxiosError? ==> r.error == Some(AxiosErrorValue(e.message, e.response))
    ensures e.PlainError? ==> r.error == Some(MessageObject(e.message))
    ensures e.NonError? ==> r.error == Some(MessageObject(UnknownErrorMessage))
  {
    match e
    case AxiosError(message, response) =>
      var status := if response.Some? then Some(response.value.status) else None;
      CallRecord(methodName, startTime, endTime, false, status, Some(AxiosErrorValue(message, response)), None)
    case PlainError(message) =>
      CallRecord(methodName, startTime, endTime, false, None, Some(MessageObject(message)), None)
    case NonError =>
      CallRecord(methodName, startTime, endTime, false, None, Some(MessageObject(UnknownErrorMessage)), None)
  }

  /** Everything that decides how one call goes: when it starts waiting
      for the rate limiter, what happens during its sleeps, how long the
      exchange takes, and how it ends. */
  datatype CallInput = CallInput(requestedAt: int, wakes: seq<RateLimiter.Wake>, latencyMs: nat, outcome: TransportOutcome)

  /** How a call's promise settles: with a record, or rejected because the
      rate limiter timed out (at `failedAt`). */
  datatype Settled = Fulfilled(record: CallRecord) | Rejected(failedAt: int)

  datatype SendResult = SendResult(rpc: RpcState, limiter: seq<int>, sent: Option<JsonRpcRequest>, settled: Settled)

  /** The record of a call that ran from `startTime` to `endTime` and
      ended with `outcome`. */
  function ClassifyOutcome(methodName: string, startTime: int, endTime: int, outcome: TransportOutcome): CallRecord {
    match outcome
    case Replied(resp) => ClassifyReply(methodName, startTime, endTime, resp)
    case Threw(e) => ClassifyException(methodName, startTime, endTime, e)
  }

  /** `sendJsonRpcRequest(method, params)`. The request id is taken only
      once the rate limiter has granted a slot, so a rate-limit timeout
      consumes no id, sends nothing and rejects the call. */
  function SendJsonRpcRequest(st: RpcState, limiter: seq<int>, methodName: string, params: seq<Json>, call: CallInput)
    : (r: SendResult)
    ensures r.sent.Some? <==> r.settled.Fulfilled?
    ensures r.sent.Some? ==>
              r.sent.value == JsonRpcRequest(JsonRpcVersion, methodName, Some(params), NumberId(st.nextId))
              && r.rpc.nextId == st.nextId + 1
    ensures r.settled.Rejected? ==> r.rpc == st && r.settled.failedAt - call.requestedAt > RateLimiter.DefaultMaxWaitMs
    ensures r.settled.Fulfilled? ==>
              var rec := r.settled.record;
              rec.methodName == methodName && WellFormed(rec)
              && call.requestedAt <= rec.startTime <= rec.endTime
              && |r.limiter| > 0 && rec.startTime == r.limiter[|r.limiter| - 1]
              && rec.endTime == rec.startTime + call.latencyMs
              && rec == ClassifyOutcome(methodName, rec.startTime, rec.endTime, call.outcome)
  {
    match RateLimiter.WaitForRateLimitPermission(limiter, call.requestedAt, RateLimiter.DefaultMaxWaitMs, call.wakes)
    case RateLimitTimeout(ts, at) => SendResult(st, ts, None, Rejected(at))
    case Permitted(ts, at) =>
      var request := JsonRpcRequest(JsonRpcVersion, methodName, Some(params), NumberId(st.nextId));
      var endTime := at + call.latencyMs;
      var record := ClassifyOutcome(methodName, at, endTime, call.outcome);
      SendResult(RpcState(st.nextId + 1), ts, Some(request), Fulfilled(record))
  }

  /** Sending keeps the rate limiter's invariant. */
  lemma SendKeepsLimiterValid(st: RpcState, limiter: seq<int>, methodName: string, params: seq<Json>, call: CallInput)
    requires RateLimiter.Valid(limiter) && RateLimiter.NotAfter(limiter, call.requestedAt)
    ensures RateLimiter.Valid(SendJsonRpcRequest(st, limiter, methodName, params, call).limiter)
  {
    RateLimiter.WaitKeepsValid(limiter, call.requestedAt, call.requestedAt, RateLimiter.DefaultMaxWaitMs, call.wakes, 0);
  }

  /** `getBlockNumber`, `getChainId` and `getSyncingStatus`: the three
      calls the poller makes, each with an empty parameter list. */
  function GetBlockNumber(st: RpcState, limiter: seq<int>, call: CallInput): (r: SendResult)
    ensures r.sent.Some? ==> r.sent.value.methodName == BlockNumberMethod && r.sent.value.params == Some([])
  {
    SendJsonRpcRequest(st, limiter, BlockNumberMethod, [], call)
  }

  function GetChainId(st: RpcState, limiter: seq<int>, call: CallInput): (r: SendResult)
    ensures r.sent.Some? ==> r.sent.value.methodName == ChainIdMethod && r.sent.value.params == Some([])
  {
    SendJsonRpcRequest(st, limiter, ChainIdMethod, [], call)
  }

  function GetSyncingStatus(st: RpcState, limiter: seq<int>, call: CallInput): (r: SendResult)
    ensures r.sent.Some? ==> r.sent.value.methodName == SyncingMethod && r.sent.value.params == Some([])
  {
    SendJsonRpcRequest(st, limiter, SyncingMethod, [], call)
  }

  // ---------------------------------------------------------------------
  // Several calls in a row

  datatype PlannedCall = PlannedCall(methodName: string, input: CallInput)

  /** The outcome of issuing calls one after another: the final counter
      and limiter, the ids of the requests actually sent, and how each
      call settled. */
  datatype Batch = Batch(rpc: RpcState, limiter: seq<int>, ids: seq<int>, settled: seq<Settled>)

  function CountFulfilled(settled: seq<Settled>): (n: nat)
    ensures n <= |settled|
  {
    if |settled| == 0 then 0
    else CountFulfilled(settled[..|settled| - 1]) + (if settled[|settled| - 1].Fulfilled? then 1 else 0)
  }

  /** The ids `from`, `from + 1`, ..., `from + n - 1`. */
  function Consecutive(from: int, n: nat): (r: seq<int>)
    ensures |r| == n
  {
    if n == 0 then [] else Consecutive(from, n - 1) + [from + n - 1]
  }

  lemma {:induction false} ConsecutiveAt(from: int, n: nat, i: nat)
    requires i < n
    ensures Consecutive(from, n)[i] == from + i
  {
    if i < n - 1 {
      ConsecutiveAt(from, n - 1, i);
    }
  }

  /** One more call after a batch: the record of how it settled is
      appended, and its id when it was sent. */
  function Extend(b: Batch, call: PlannedCall): (r: Batch)
    ensures |r.settled| == |b.settled| + 1 && r.settled[..|b.settled|] == b.settled
    ensures r.ids == if r.settled[|b.settled|].Fulfilled? then b.ids + [b.rpc.nextId] else b.ids
    ensures r.rpc.nextId == b.rpc.nextId + (|r.ids| - |b.ids|)
    ensures r.settled[|b.settled|].Fulfilled? ==> r.settled[|b.settled|].record.methodName == call.methodName
  {
    var one := SendJsonRpcRequest(b.rpc, b.limiter, call.methodName, [], call.input);
    var ids := if one.sent.Some? then b.ids + [b.rpc.nextId] else b.ids;
    Batch(one.rpc, one.limiter, ids, b.settled + [one.settled])
  }

  /** Issues the calls in order. The ids sent are consecutive, starting
      at the counter's value, one per call that got a slot. */
  function SendAll(st: RpcState, limiter: seq<int>, calls: seq<PlannedCall>): (r: Batch)
    ensures |r.settled| == |calls|
    ensures r.ids == Consecutive(st.nextId, |r.ids|)
    ensures r.rpc.nextId == st.nextId + |r.ids|
  {
    if |calls| == 0 then Batch(st, limiter, [], [])
    else Extend(SendAll(st, limiter, calls[..|calls| - 1]), calls[|calls| - 1])
  }

  /** One id is sent per call that settles with a record. */
  lemma {:induction false} OneIdPerFulfilledCall(st: RpcState, limiter: seq<int>, calls: seq<PlannedCall>)
    ensures |SendAll(st, limiter, calls).ids| == CountFulfilled(SendAll(st, limiter, calls).settled)
  {
    if |calls| > 0 {
      var before := SendAll(st, limiter, calls[..|calls| - 1]);
      OneIdPerFulfilledCall(st, limiter, calls[..|calls| - 1]);
      var r := Extend(before, calls[|calls| - 1]);
      assert SendAll(st, limiter, calls) == r;
      assert r.settled[..|r.settled| - 1] == before.settled;
    }
  }

  /** Each record a batch yields belongs to the call at the same position. */
  lemma {:induction false} RecordMatchesCall(st: RpcState, limiter: seq<int>, calls: seq<PlannedCall>, i: nat)
    requires i < |calls| && SendAll(st, limiter, calls).settled[i].Fulfilled?
    ensures SendAll(st, limiter, calls).settled[i].record.methodName == calls[i].methodName
  {
    var n := |calls| - 1;
    var before := SendAll(st, limiter, calls[..n]);
    var settled := Extend(before, calls[n]).settled;
    assert SendAll(st, limiter, calls).settled == settled;
    if i < n {
      assert settled[..n][i] == settled[i];
      RecordMatchesCall(st, limiter, calls[..n], i);
    }
  }

  lemma RecordsMatchCalls(st: RpcState, limiter: seq<int>, calls: seq<PlannedCall>)
    ensures var r := SendAll(st, limiter, calls);
            forall i :: 0 <= i < |calls| && r.settled[i].Fulfilled? ==>
              r.settled[i].record.methodName == calls[i].methodName
  {
    forall i | 0 <= i < |calls| && SendAll(st, limiter, calls).settled[i].Fulfilled?
      ensures SendAll(st, limiter, calls).settled[i].record.methodName == calls[i].methodName
    {
      RecordMatchesCall(st, limiter, calls, i);
    }
  }

  /** A reply carrying a well-formed success response gives a successful
      record holding the response's result. */
  lemma SuccessResponseIsSuccess(methodName: string, startTime: int, endTime: int, status: int,
                                 result: Json, id: RequestId)
    ensures var r := ClassifyReply(methodName, startTime, endTime,
                                   HttpResponse(status, EncodeResponse(SuccessResponse(JsonRpcVersion, result, id))));
            r.isSuccess && r.result == Some(result) && r.error.None? && r.statusCode == Some(status)
  {
  }

  /** A reply carrying a well-formed error response gives a failed record
      holding the error object exactly as sent. */
  lemma ErrorResponseIsFailure(methodName: string, startTime: int, endTime: int, status: int,
                               error: JsonRpcErrorObject, id: RequestId)
    ensures var r := ClassifyReply(methodName, startTime, endTime,
                                   HttpResponse(status, EncodeResponse(ErrorResponse(JsonRpcVersion, error, id))));
            !r.isSuccess && r.error == Some(EncodeErrorObject(error)) && r.result.None?
            && r.statusCode == Some(status)
  {
  }

  /** When the server answers an HTTP error status with a well-formed
      JSON-RPC error response, the record keeps the server's error object
      exactly as sent, together with the status. */
  lemma ServerErrorSurvivesHttpFailure(methodName: string, startTime: int, endTime: int, message: string,
                                       status: int, error: JsonRpcErrorObject, id: RequestId)
    ensures var resp := HttpResponse(status, EncodeResponse(ErrorResponse(JsonRpcVersion, error, id)));
            var r := ClassifyException(methodName, startTime, endTime, AxiosError(message, Some(resp)));
            r.error == Some(EncodeErrorObject(error)) && r.statusCode == Some(status)
  {
    var resp := HttpResponse(status, EncodeResponse(ErrorResponse(JsonRpcVersion, error, id)));
    assert CarriesServerError(Some(resp));
  }

  /** An HTTP 500 whose body carries `{error: {code: -32000, message:
      "Server Error"}}`: a real HTTP-client error yields the server's
      message, while the same exception seen as a plain `Error` (which is
      what a fully mocked client produces, its `isAxiosError` answering
      falsy) yields the client's own message and no status. */
  lemma ServerErrorVersusPlainError(methodName: string, startTime: int, endTime: int)
    ensures var detail := JObject([("code", JNumber(-32000)), ("message", JString("Server Error"))]);
            var resp := HttpResponse(500, JObject([("error", detail)]));
            var clientMessage := "Request failed with status code 500";
            var fromClient := ClassifyException(methodName, startTime, endTime, AxiosError(clientMessage, Some(resp)));
            var mocked := ClassifyException(methodName, startTime, endTime, PlainError(clientMessage));
            && GetString(fromClient.error.value, "message") == Some("Server Error")
            && fromClient.statusCode == Some(500)
            && GetString(mocked.error.value, "message") == Some(clientMessage)
            && mocked.statusCode.None?
  {
    var detail := JObject([("code", JNumber(-32000)), ("message", JString("Server Error"))]);
    var body := JObject([("error", detail)]);
    assert body.members[0] == ("error", detail);
    assert detail.members[0].0 == "code";
    assert detail.members[1..][0] == ("message", JString("Server Error"));
    assert CarriesServerError(Some(HttpResponse(500, body)));
  }

  /** A reply whose body is falsy (an empty body, `false`, `0` or
      `null`) fails the `responseData &&` guard and is reported as a
      malformed response, with its status. */
  lemma FalsyBodyIsInvalidStructure(methodName: string, startTime: int, endTime: int, resp: HttpResponse)
    requires !Truthy(resp.data)
    ensures var r := ClassifyReply(methodName, startTime, endTime, resp);
            !r.isSuccess && r.error == Some(MessageObject(InvalidStructureMessage))
            && r.statusCode == Some(resp.status)
  {
  }

  /** The ids a batch sends strictly increase, one at a time, from the
      counter's value; from a fresh process they are 1, 2, 3, ... */
  lemma {:induction false} SentIdsStrictlyIncrease(st: RpcState, limiter: seq<int>, calls: seq<PlannedCall>, i: nat, j: nat)
    requires i < j < |SendAll(st, limiter, calls).ids|
    ensures SendAll(st, limiter, calls).ids[i] == st.nextId + i
    ensures SendAll(st, limiter, calls).ids[i] < SendAll(st, limiter, calls).ids[j]
  {
    var ids := SendAll(st, limiter, calls).ids;
    ConsecutiveAt(st.nextId, |ids|, i);
    ConsecutiveAt(st.nextId, |ids|, j);
  }
}
