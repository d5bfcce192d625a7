/** The backend's shared data shapes: the JSON-RPC 2.0 request, response and
    error objects (sections 4, 5 and 5.1 of the JSON-RPC 2.0
    Specification), the `eth_syncing` result, one call record and one
    metrics snapshot. */
module Types {

  import opened Wrappers
  import opened Json

  /** A request identifier: a number, a string or null. */
  datatype RequestId = NumberId(n: int) | StringId(s: string) | NullId

  datatype JsonRpcRequest = JsonRpcRequest(
    jsonrpc: string,
    methodName: string,
    params: Option<seq<Json>>,
    id: RequestId)

  datatype JsonRpcErrorObject = JsonRpcErrorObject(code: int, message: string, data: Option<Json>)

  /** A well-formed reply carries either a result or an error object. */
  datatype JsonRpcResponse =
    | SuccessResponse(jsonrpc: string, result: Json, id: RequestId)
    | ErrorResponse(jsonrpc: string, error: JsonRpcErrorObject, id: RequestId)

  /** `eth_syncing` answers `false` or the three block numbers as hex strings. */
  datatype EthSyncingResult =
    | NotSyncing
    | SyncingProgress(startingBlock: string, currentBlock: string, highestBlock: string)

  /** One finished RPC attempt. `error` and `result` are `None` when the
      property is absent (`undefined`); `error` holds whatever value the
      service stored there. */
  datatype CallRecord = CallRecord(
    methodName: string,
    startTime: int,
    endTime: int,
    isSuccess: bool,
    statusCode: Option<int>,
    error: Option<Json>,
    result: Option<Json>)

  /** One metrics snapshot. `successRateTenths` is the success rate in
      tenths of a percent (the source's one-decimal percentage times ten);
      `None` in the three sticky fields stands for `null`. */
  datatype Metrics = Metrics(
    totalRequests: nat,
    successfulRequests: nat,
    failedRequests: nat,
    successRateTenths: int,
    averageResponseTimeMs: int,
    errorMessages: seq<string>,
    lastBlockNumber: Option<string>,
    lastChainId: Option<string>,
    syncingStatus: Option<Json>,
    callRecords: seq<CallRecord>)

  function EncodeId(id: RequestId): Json {
    match id
    case NumberId(n) => JNumber(n)
    case StringId(s) => JString(s)
    case NullId => JNull
  }

  /** The request body as it goes on the wire, members in declaration order. */
  function EncodeRequest(req: JsonRpcRequest): Json {
    var params := if req.params.Some? then [("params", JArray(req.params.value))] else [];
    JObject([("jsonrpc", JString(req.jsonrpc)), ("method", JString(req.methodName))]
            + params + [("id", EncodeId(req.id))])
  }

  function EncodeErrorObject(e: JsonRpcErrorObject): (j: Json)
    ensures GetString(j, "message") == Some(e.message)
    ensures HasKey(j, "code") && Truthy(j)
  {
    var data := if e.data.Some? then [("data", e.data.value)] else [];
    var j := JObject([("code", JNumber(e.code)), ("message", JString(e.message))] + data);
    assert j.members[1] == ("message", JString(e.message));
    j
  }

  /** The reply body a server sends for a well-formed response. */
  function EncodeResponse(resp: JsonRpcResponse): (j: Json)
    ensures resp.SuccessResponse? ==> Get(j, "result") == Some(resp.result)
    ensures resp.ErrorResponse? ==> !HasKey(j, "result")
    ensures resp.ErrorResponse? ==> Get(j, "error") == Some(EncodeErrorObject(resp.error))
  {
    match resp
    case SuccessResponse(v, result, id) =>
      var j := JObject([("jsonrpc", JString(v)), ("result", result), ("id", EncodeId(id))]);
      assert j.members[1..][0] == ("result", result);
      j
    case ErrorResponse(v, error, id) =>
      var j := JObject([("jsonrpc", JString(v)), ("error", EncodeErrorObject(error)), ("id", EncodeId(id))]);
      assert forall i :: 0 <= i < |j.members| ==> j.members[i].0 != "result";
      assert j.members[1..][0] == ("error", EncodeErrorObject(error));
      j
  }

  function EncodeSyncing(s: EthSyncingResult): Json {
    match s
    case NotSyncing => JBool(false)
    case SyncingProgress(starting, current, highest) =>
      JObject([("startingBlock", JString(starting)), ("currentBlock", JString(current)),
               ("highestBlock", JString(highest))])
  }

  /** Reads an `eth_syncing` result back from its JSON form. */
  function DecodeSyncing(j: Json): Option<EthSyncingResult> {
    if j == JBool(false) then Some(NotSyncing)
    else
      match (GetString(j, "startingBlock"), GetString(j, "currentBlock"), GetString(j, "highestBlock"))
      case (Some(s), Some(c), Some(h)) => Some(SyncingProgress(s, c, h))
      case _ => None
  }

  /** Decoding an encoded `eth_syncing` result gives it back unchanged. */
  lemma SyncingRoundTrip(s: EthSyncingResult)
    ensures DecodeSyncing(EncodeSyncing(s)) == Some(s)
  {
    if s.SyncingProgress? {
      var j := EncodeSyncing(s);
      assert j.members[0] == ("startingBlock", JString(s.startingBlock));
      assert j.members[1] == ("currentBlock", JString(s.currentBlock));
      assert j.members[2] == ("highestBlock", JString(s.highestBlock));
    }
  }
}
