/** The metrics service: a window of the last 100 call records, the
    metrics snapshot computed from it, the polling cycle that feeds it,
    and the start/stop poller. The module-level state of the source (the
    window, the latest snapshot, the recorded interval) is an explicit
    `Service` value here, and the broadcast sink is the log of every
    snapshot published. */
module MetricsService {

  import opened Wrappers
  import opened Json
  import opened Types
  import RpcService

  const MaxRecords: nat := 100
  const PollingIntervalMs: nat := 5000
  const MaxErrorMessages: nat := 10

  /** The snapshot the service starts from and returns to on reset. */
  const InitialMetrics := Metrics(0, 0, 0, 0, 0, [], None, None, None, [])

  function Min(a: int, b: int): int {
    if a <= b then a else b
  }

  // ---------------------------------------------------------------------
  // Sequence helpers

  /** The last `n` elements of `s` (all of them when there are fewer). */
  function LastN<T>(s: seq<T>, n: nat): (r: seq<T>)
    ensures |r| == Min(|s|, n)
    ensures r == s[|s| - |r|..]
  {
    if |s| <= n then s else s[|s| - n..]
  }

  /** The first `n` elements of `s` (all of them when there are fewer). */
  function Take<T>(s: seq<T>, n: nat): (r: seq<T>)
    ensures |r| == Min(|s|, n)
    ensures r == s[..|r|]
  {
    if |s| <= n then s else s[..n]
  }

  function Reverse<T>(s: seq<T>): (r: seq<T>)
    ensures |r| == |s|
    ensures forall i :: 0 <= i < |s| ==> r[i] == s[|s| - 1 - i]
  {
    if |s| == 0 then [] else [s[|s| - 1]] + Reverse(s[..|s| - 1])
  }

  // ---------------------------------------------------------------------
  // The record window

  /** `addCallRecord`: push at the back, and drop the front record once
      the window holds more than 100. */
  function AddCallRecord(window: seq<CallRecord>, record: CallRecord): (w: seq<CallRecord>)
    ensures |window| <= MaxRecords ==> w == LastN(window + [record], MaxRecords)
    ensures |window| <= MaxRecords ==> |w| <= MaxRecords && w[|w| - 1] == record
  {
    var grown := window + [record];
    if |grown| > MaxRecords then grown[1..] else grown
  }

  /** Adds the records one after another. */
  function AddAll(window: seq<CallRecord>, records: seq<CallRecord>): seq<CallRecord> {
    if |records| == 0 then window
    else AddCallRecord(AddAll(window, records[..|records| - 1]), records[|records| - 1])
  }

  lemma LastNSnoc<T>(s: seq<T>, x: T, n: nat)
    requires n > 0
    ensures LastN(LastN(s, n) + [x], n) == LastN(s + [x], n)
  {
    var l := LastN(s, n);
    var a := LastN(l + [x], n);
    var b := LastN(s + [x], n);
    assert |a| == |b|;
    forall i | 0 <= i < |a|
      ensures a[i] == b[i]
    {
      if i == |a| - 1 {
        assert a[i] == x && b[i] == x;
      } else {
        assert a[i] == l[|l| + 1 - |a| + i];
        assert b[i] == s[|s| + 1 - |b| + i];
      }
    }
  }

  /** Adding one more record to a window that holds the last 100 of
      everything so far keeps it the last 100 of everything. */
  lemma AddOneKeepsLast(window: seq<CallRecord>, init: seq<CallRecord>, x: CallRecord)
    requires AddAll(window, init) == LastN(window + init, MaxRecords)
    ensures AddAll(window, init + [x]) == LastN(window + init + [x], MaxRecords)
  {
    assert (init + [x])[..|init|] == init;
    var w := AddAll(window, init);
    assert AddAll(window, init + [x]) == AddCallRecord(w, x);
    LastNSnoc(window + init, x, MaxRecords);
  }

  lemma {:induction false} AddAllIsLastN(window: seq<CallRecord>, records: seq<CallRecord>)
    requires |window| <= MaxRecords
    ensures AddAll(window, records) == LastN(window + records, MaxRecords)
  {
    if |records| == 0 {
      assert window + records == window;
    } else {
      var init := records[..|records| - 1];
      var x := records[|records| - 1];
      assert records == init + [x];
      AddAllIsLastN(window, init);
      AddOneKeepsLast(window, init, x);
      assert window + init + [x] == window + records;
    }
  }

  /** Whatever was appended, a window that starts within capacity holds
      exactly the last 100 records of everything appended, in insertion
      order; while fewer than 100 were ever added, it holds all of them. */
  lemma WindowKeepsLastAppended(window: seq<CallRecord>, records: seq<CallRecord>)
    requires |window| <= MaxRecords
    ensures AddAll(window, records) == LastN(window + records, MaxRecords)
    ensures |window + records| <= MaxRecords ==> AddAll(window, records) == window + records
    ensures |AddAll(window, records)| <= MaxRecords
  {
    AddAllIsLastN(window, records);
  }

  // ---------------------------------------------------------------------
  // Reference definitions of what the snapshot holds

  /** The number of successful records. */
  function SuccessCount(w: seq<CallRecord>): (n: nat)
    ensures n <= |w|
  {
    if |w| == 0 then 0
    else SuccessCount(w[..|w| - 1]) + (if w[|w| - 1].isSuccess then 1 else 0)
  }

  function Duration(r: CallRecord): int {
    r.endTime - r.startTime
  }

  /** The summed duration of the successful records. */
  function SuccessTime(w: seq<CallRecord>): int {
    if |w| == 0 then 0
    else SuccessTime(w[..|w| - 1]) + (if w[|w| - 1].isSuccess then Duration(w[|w| - 1]) else 0)
  }

  /** A record that contributes an error line: failed, with a truthy error. */
  predicate IsErrorRecord(r: CallRecord) {
    !r.isSuccess && r.error.Some? && Truthy(r.error.value)
  }

  /** The error's `message` when that is a string, its JSON text otherwise. */
  function ErrorText(e: Json): (t: string)
    ensures GetString(e, "message").Some? ==> t == GetString(e, "message").value
    ensures GetString(e, "message").None? ==> t == Stringify(e)
  {
    match GetString(e, "message")
    case Some(s) => s
    case None => Stringify(e)
  }

  /** The error line `[method]: message`. */
  function ErrorLine(r: CallRecord): string
    requires r.error.Some?
  {
    "[" + r.methodName + "]: " + ErrorText(r.error.value)
  }

  /** Every error line of the window, in window order. Each comes from a
      failed record, so there are no more than there are failures. */
  function ErrorLines(w: seq<CallRecord>): (ls: seq<string>)
    ensures |ls| <= |w| - SuccessCount(w)
  {
    if |w| == 0 then []
    else
      var last := w[|w| - 1];
      ErrorLines(w[..|w| - 1]) + (if IsErrorRecord(last) then [ErrorLine(last)] else [])
  }

  /** Each error line is the line of some failed record that carries an
      error. */
  lemma {:induction false} ErrorLinesFromErrorRecords(w: seq<CallRecord>, k: nat)
    requires k < |ErrorLines(w)|
    ensures exists i :: 0 <= i < |w| && IsErrorRecord(w[i]) && ErrorLines(w)[k] == ErrorLine(w[i])
  {
    var init := w[..|w| - 1];
    var before := ErrorLines(init);
    var ls := ErrorLines(w);
    assert ls == before + (if IsErrorRecord(w[|w| - 1]) then [ErrorLine(w[|w| - 1])] else []);
    if k < |before| {
      ErrorLinesFromErrorRecords(init, k);
      var i :| 0 <= i < |init| && IsErrorRecord(init[i]) && before[k] == ErrorLine(init[i]);
      assert w[i] == init[i] && ls[k] == before[k];
    } else {
      assert IsErrorRecord(w[|w| - 1]) && ls[k] == ErrorLine(w[|w| - 1]);
    }
  }

  /** The record's result when it is a string (`typeof result === 'string'`). */
  function StringResult(rec: CallRecord): Option<string> {
    if rec.result.Some? && rec.result.value.JString? then Some(rec.result.value.s) else None
  }

  /** Whether a record is a success of `methodName` answering a string. */
  predicate IsStringResult(rec: CallRecord, methodName: string) {
    rec.isSuccess && rec.methodName == methodName && StringResult(rec).Some?
  }

  /** The string result of the last successful call of `methodName` in
      the window, or `fallback` when there is none. */
  function LastStringResult(w: seq<CallRecord>, methodName: string, fallback: Option<string>): (r: Option<string>)
    ensures (forall i :: 0 <= i < |w| ==> !IsStringResult(w[i], methodName)) ==> r == fallback
    ensures forall i :: 0 <= i < |w| && IsStringResult(w[i], methodName)
                        && (forall j :: i < j < |w| ==> !IsStringResult(w[j], methodName)) ==>
              r == StringResult(w[i])
    ensures r != fallback ==>
              exists i :: 0 <= i < |w| && IsStringResult(w[i], methodName) && r == StringResult(w[i])
  {
    if |w| == 0 then fallback
    else
      var last := w[|w| - 1];
      if IsStringResult(last, methodName) then StringResult(last)
      else
        var r := LastStringResult(w[..|w| - 1], methodName, fallback);
        StringResultSkipsNonMatch(w, methodName, fallback, r);
        r
  }

  /** A record that is no string success of `methodName` leaves the last
      such result, as found in the records before it, unchanged. */
  lemma StringResultSkipsNonMatch(w: seq<CallRecord>, methodName: string, fallback: Option<string>, r: Option<string>)
    requires |w| > 0 && !IsStringResult(w[|w| - 1], methodName)
    requires var init := w[..|w| - 1];
             && ((forall i :: 0 <= i < |init| ==> !IsStringResult(init[i], methodName)) ==> r == fallback)
             && (forall i :: 0 <= i < |init| && IsStringResult(init[i], methodName)
                             && (forall j :: i < j < |init| ==> !IsStringResult(init[j], methodName)) ==>
                   r == StringResult(init[i]))
             && (r != fallback ==>
                   exists i :: 0 <= i < |init| && IsStringResult(init[i], methodName) && r == StringResult(init[i]))
    ensures (forall i :: 0 <= i < |w| ==> !IsStringResult(w[i], methodName)) ==> r == fallback
    ensures forall i :: 0 <= i < |w| && IsStringResult(w[i], methodName)
                        && (forall j :: i < j < |w| ==> !IsStringResult(w[j], methodName)) ==>
              r == StringResult(w[i])
    ensures r != fallback ==>
              exists i :: 0 <= i < |w| && IsStringResult(w[i], methodName) && r == StringResult(w[i])
  {
    var init := w[..|w| - 1];
    assert forall i :: 0 <= i < |init| ==> init[i] == w[i];
    forall i | 0 <= i < |w| && IsStringResult(w[i], methodName)
               && (forall j :: i < j < |w| ==> !IsStringResult(w[j], methodName))
      ensures r == StringResult(w[i])
    {
      assert i < |init| && init[i] == w[i];
    }
    if r != fallback {
      var i :| 0 <= i < |init| && IsStringResult(init[i], methodName) && r == StringResult(init[i]);
      assert w[i] == init[i];
    }
  }

  /** JavaScript's `null`, whether absent or a JSON `null`, is `None`. */
  function NullToNone(o: Option<Json>): (r: Option<Json>)
    ensures r.None? <==> o.None? || o == Some(JNull)
    ensures r.Some? ==> r == o
  {
    if o == Some(JNull) then None else o
  }

  /** Whether a record is a success of `eth_syncing`. */
  predicate IsSyncingSuccess(rec: CallRecord) {
    rec.isSuccess && rec.methodName == RpcService.SyncingMethod
  }

  /** The result of the last successful `eth_syncing` call in the window,
      whatever its shape (a `null` result read as `None`), or `fallback`
      when there is none. */
  function LastSyncing(w: seq<CallRecord>, fallback: Option<Json>): (r: Option<Json>)
    ensures (forall i :: 0 <= i < |w| ==> !IsSyncingSuccess(w[i])) ==> r == fallback
    ensures forall i :: 0 <= i < |w| && IsSyncingSuccess(w[i])
                        && (forall j :: i < j < |w| ==> !IsSyncingSuccess(w[j])) ==>
              r == NullToNone(w[i].result)
    ensures r != fallback ==>
              exists i :: 0 <= i < |w| && IsSyncingSuccess(w[i]) && NullToNone(w[i].result) == r
  {
    if |w| == 0 then fallback
    else
      var last := w[|w| - 1];
      if IsSyncingSuccess(last) then NullToNone(last.result)
      else
        var r := LastSyncing(w[..|w| - 1], fallback);
        SyncingSkipsNonMatch(w, fallback, r);
        r
  }

  /** A record that is no `eth_syncing` success leaves the last syncing
      result, as found in the records before it, unchanged. */
  lemma SyncingSkipsNonMatch(w: seq<CallRecord>, fallback: Option<Json>, r: Option<Json>)
    requires |w| > 0 && !IsSyncingSuccess(w[|w| - 1])
    requires var init := w[..|w| - 1];
             && ((forall i :: 0 <= i < |init| ==> !IsSyncingSuccess(init[i])) ==> r == fallback)
             && (forall i :: 0 <= i < |init| && IsSyncingSuccess(init[i])
                             && (forall j :: i < j < |init| ==> !IsSyncingSuccess(init[j])) ==>
                   r == NullToNone(init[i].result))
             && (r != fallback ==>
                   exists i :: 0 <= i < |init| && IsSyncingSuccess(init[i]) && NullToNone(init[i].result) == r)
    ensures (forall i :: 0 <= i < |w| ==> !IsSyncingSuccess(w[i])) ==> r == fallback
    ensures forall i :: 0 <= i < |w| && IsSyncingSuccess(w[i])
                        && (forall j :: i < j < |w| ==> !IsSyncingSuccess(w[j])) ==>
              r == NullToNone(w[i].result)
    ensures r != fallback ==>
              exists i :: 0 <= i < |w| && IsSyncingSuccess(w[i]) && NullToNone(w[i].result) == r
  {
    var init := w[..|w| - 1];
    assert forall i :: 0 <= i < |init| ==> init[i] == w[i];
    forall i | 0 <= i < |w| && IsSyncingSuccess(w[i]) && (forall j :: i < j < |w| ==> !IsSyncingSuccess(w[j]))
      ensures r == NullToNone(w[i].result)
    {
      assert i < |init| && init[i] == w[i];
    }
    if r != fallback {
      var i :| 0 <= i < |init| && IsSyncingSuccess(init[i]) && NullToNone(init[i].result) == r;
      assert w[i] == init[i];
    }
  }

  lemma HalfUpBounds(m: nat, b: int)
    requires b > 0
    ensures (2 * m + b) / (2 * b) >= 0
    ensures b * (2 * ((2 * m + b) / (2 * b)) - 1) <= 2 * m < b * (2 * ((2 * m + b) / (2 * b)) + 1)
  {
    var d := 2 * b;
    var q := (2 * m + b) / d;
    var rem := (2 * m + b) % d;
    assert 2 * m + b == d * q + rem && 0 <= rem < d;
    assert b * (2 * q - 1) == d * q - b;
    assert b * (2 * q + 1) == d * q + b;
  }

  /** `r` is an integer nearest to the quotient `a / b`. */
  predicate IsNearest(r: int, a: int, b: int) {
    b * (2 * r - 1) <= 2 * a <= b * (2 * r + 1)
  }

  /** `r` is the integer nearest to `a / b`, a tie going away from zero:
      the rounding of `toFixed(0)`. */
  predicate RoundsAwayFromZero(r: int, a: int, b: int) {
    && IsNearest(r, a, b)
    && (a >= 0 ==> 2 * a < b * (2 * r + 1))
    && (a < 0 ==> b * (2 * r - 1) < 2 * a)
  }

  /** The rounding leaves no choice: exactly one integer rounds `a / b`
      away from zero, so every contract stated with it fixes its result. */
  lemma RoundingIsUnique(r1: int, r2: int, a: int, b: int)
    requires b > 0 && RoundsAwayFromZero(r1, a, b) && RoundsAwayFromZero(r2, a, b)
    ensures r1 == r2
  {
    CancelFactorStrict(b, 2 * r1 - 1, 2 * r2 + 1);
    CancelFactorStrict(b, 2 * r2 - 1, 2 * r1 + 1);
  }

  lemma CancelFactorStrict(d: int, x: int, y: int)
    requires d > 0 && d * x < d * y
    ensures x < y
  {
  }

  /** `x.toFixed(0)` for the quotient `a / b`. */
  function RoundQuotient(a: int, b: int): (r: int)
    requires b > 0
    ensures RoundsAwayFromZero(r, a, b)
    ensures a >= 0 ==> r >= 0
  {
    var m: nat := if a >= 0 then a else -a;
    HalfUpBounds(m, b);
    var q := (2 * m + b) / (2 * b);
    if a >= 0 then q
    else
      assert b * (2 * (-q) - 1) == -(b * (2 * q + 1));
      assert b * (2 * (-q) + 1) == -(b * (2 * q - 1));
      -q
  }

  // ---------------------------------------------------------------------
  // The snapshot

  /** The success rate in tenths of a percent: `successes / n * 100`
      rounded to one decimal, or 0 for an empty window. */
  function RateTenths(successes: nat, n: nat): (r: int)
    requires successes <= n
    ensures n == 0 ==> r == 0
    ensures n > 0 ==> RoundsAwayFromZero(r, 1000 * successes, n)
    ensures 0 <= r <= 1000
  {
    if n == 0 then 0
    else
      var r := RoundQuotient(1000 * successes, n);
      CancelFactor(n, 2 * r - 1, 2000);
      r
  }

  /** The mean duration of the successes rounded to a whole millisecond,
      or 0 when there are none. */
  function AverageMs(total: int, successes: nat): (a: int)
    ensures successes == 0 ==> a == 0
    ensures successes > 0 ==> RoundsAwayFromZero(a, total, successes)
  {
    if successes > 0 then RoundQuotient(total, successes) else 0
  }

  /** `calculateMetrics` as a pure function of the window and the
      previous snapshot. */
  function CalculateMetrics(window: seq<CallRecord>, previous: Metrics): (m: Metrics)
    ensures m.totalRequests == |window|
    ensures m.successfulRequests == SuccessCount(window)
    ensures m.successfulRequests + m.failedRequests == m.totalRequests
    ensures |window| == 0 ==> m.successRateTenths == 0 && m.averageResponseTimeMs == 0
    ensures |window| > 0 ==> RoundsAwayFromZero(m.successRateTenths, 1000 * m.successfulRequests, |window|)
    ensures 0 <= m.successRateTenths <= 1000
    ensures m.successfulRequests == 0 ==> m.averageResponseTimeMs == 0
    ensures m.successfulRequests > 0 ==>
              RoundsAwayFromZero(m.averageResponseTimeMs, SuccessTime(window), m.successfulRequests)
    ensures |m.errorMessages| == Min(|ErrorLines(window)|, MaxErrorMessages)
    ensures forall k :: 0 <= k < |m.errorMessages| ==>
              m.errorMessages[k] == ErrorLines(window)[|m.errorMessages| - 1 - k]
    ensures |m.callRecords| == |window|
    ensures forall i :: 0 <= i < |window| ==> m.callRecords[i] == window[|window| - 1 - i]
    ensures m.lastBlockNumber == LastStringResult(window, RpcService.BlockNumberMethod, previous.lastBlockNumber)
    ensures m.lastChainId == LastStringResult(window, RpcService.ChainIdMethod, previous.lastChainId)
    ensures m.syncingStatus == LastSyncing(window, previous.syncingStatus)
  {
    var successes := SuccessCount(window);
    var rate := RateTenths(successes, |window|);
    var average := AverageMs(SuccessTime(window), successes);
    Metrics(
      |window|, successes, |window| - successes,
      rate,
      average,
      Reverse(Take(ErrorLines(window), MaxErrorMessages)),
      LastStringResult(window, RpcService.BlockNumberMethod, previous.lastBlockNumber),
      LastStringResult(window, RpcService.ChainIdMethod, previous.lastChainId),
      LastSyncing(window, previous.syncingStatus),
      Reverse(window))
  }

  lemma TakeSnoc<T>(s: seq<T>, x: T, n: nat)
    ensures Take(s + [x], n) == if |Take(s, n)| < n then Take(s, n) + [x] else Take(s, n)
  {
    if |s| >= n {
      assert (s + [x])[..n] == s[..n];
    }
  }

  /** How each reference definition changes when the pass meets one
      more record. */
  lemma VisitRecord(w: seq<CallRecord>, i: nat, previous: Metrics)
    requires i < |w|
    ensures SuccessCount(w[..i + 1]) == SuccessCount(w[..i]) + (if w[i].isSuccess then 1 else 0)
    ensures SuccessTime(w[..i + 1]) == SuccessTime(w[..i]) + (if w[i].isSuccess then Duration(w[i]) else 0)
    ensures Take(ErrorLines(w[..i + 1]), MaxErrorMessages) ==
              var errors := Take(ErrorLines(w[..i]), MaxErrorMessages);
              if IsErrorRecord(w[i]) && |errors| < MaxErrorMessages then errors + [ErrorLine(w[i])] else errors
    ensures LastStringResult(w[..i + 1], RpcService.BlockNumberMethod, previous.lastBlockNumber) ==
              if IsStringResult(w[i], RpcService.BlockNumberMethod) then StringResult(w[i])
              else LastStringResult(w[..i], RpcService.BlockNumberMethod, previous.lastBlockNumber)
    ensures LastStringResult(w[..i + 1], RpcService.ChainIdMethod, previous.lastChainId) ==
              if IsStringResult(w[i], RpcService.ChainIdMethod) then StringResult(w[i])
              else LastStringResult(w[..i], RpcService.ChainIdMethod, previous.lastChainId)
    ensures LastSyncing(w[..i + 1], previous.syncingStatus) ==
              if IsSyncingSuccess(w[i]) then NullToNone(w[i].result)
              else LastSyncing(w[..i], previous.syncingStatus)
  {
    assert w[..i + 1][..i] == w[..i];
    assert w[..i + 1][i] == w[i];
    if IsErrorRecord(w[i]) {
      TakeSnoc(ErrorLines(w[..i]), ErrorLine(w[i]), MaxErrorMessages);
    }
  }

  /** The source's single pass over the window: one counter, one running
      sum, an error list that stops growing at ten entries, and the three
      sticky values overwritten as later records are met. */
  method ScanRecords(window: seq<CallRecord>, previous: Metrics)
    returns (successfulCalls: nat, totalResponseTime: int, errors: seq<string>,
             currentBlockNumber: Option<string>, currentChainId: Option<string>, currentSyncingStatus: Option<Json>)
    ensures successfulCalls == SuccessCount(window)
    ensures totalResponseTime == SuccessTime(window)
    ensures errors == Take(ErrorLines(window), MaxErrorMessages)
    ensures currentBlockNumber == LastStringResult(window, RpcService.BlockNumberMethod, previous.lastBlockNumber)
    ensures currentChainId == LastStringResult(window, RpcService.ChainIdMethod, previous.lastChainId)
    ensures currentSyncingStatus == LastSyncing(window, previous.syncingStatus)
  {
    successfulCalls, totalResponseTime, errors := 0, 0, [];
    currentBlockNumber, currentChainId, currentSyncingStatus :=
      previous.lastBlockNumber, previous.lastChainId, previous.syncingStatus;
    var i := 0;
    while i < |window|
      invariant 0 <= i <= |window|
      invariant successfulCalls == SuccessCount(window[..i])
      invariant totalResponseTime == SuccessTime(window[..i])
      invariant errors == Take(ErrorLines(window[..i]), MaxErrorMessages)
      invariant currentBlockNumber == LastStringResult(window[..i], RpcService.BlockNumberMethod, previous.lastBlockNumber)
      invariant currentChainId == LastStringResult(window[..i], RpcService.ChainIdMethod, previous.lastChainId)
      invariant currentSyncingStatus == LastSyncing(window[..i], previous.syncingStatus)
    {
      var record := window[i];
      VisitRecord(window, i, previous);
      if record.isSuccess {
        successfulCalls := successfulCalls + 1;
        totalResponseTime := totalResponseTime + (record.endTime - record.startTime);
        if record.methodName == RpcService.BlockNumberMethod && record.result.Some? && record.result.value.JString? {
          currentBlockNumber := Some(record.result.value.s);
        }
        if record.methodName == RpcService.ChainIdMethod && record.result.Some? && record.result.value.JString? {
          currentChainId := Some(record.result.value.s);
        }
        if record.methodName == RpcService.SyncingMethod {
          currentSyncingStatus := NullToNone(record.result);
        }
      } else if record.error.Some? && Truthy(record.error.value) {
        if |errors| < MaxErrorMessages {
          errors := errors + [ErrorLine(record)];
        }
      }
      i := i + 1;
    }
    assert window[..i] == window;
  }

  /** `calculateMetrics` as the source computes it: the empty window
      short-cut, one pass, then the derived figures. It produces exactly
      the snapshot `CalculateMetrics` defines. */
  method ComputeMetrics(window: seq<CallRecord>, previous: Metrics) returns (m: Metrics)
    ensures m == CalculateMetrics(window, previous)
  {
    var n := |window|;
    if n == 0 {
      return Metrics(0, 0, 0, 0, 0, [], previous.lastBlockNumber, previous.lastChainId, previous.syncingStatus, []);
    }
    var successfulCalls, totalResponseTime, errors, currentBlockNumber, currentChainId, currentSyncingStatus :=
      ScanRecords(window, previous);
    var failedCalls := n - successfulCalls;
    var successRate := RateTenths(successfulCalls, n);
    var avgResponseTime := AverageMs(totalResponseTime, successfulCalls);
    var errorMessages := if |errors| > 0 then Reverse(errors) else [];
    m := Metrics(n, successfulCalls, failedCalls, successRate, avgResponseTime, errorMessages,
                 currentBlockNumber, currentChainId, currentSyncingStatus, Reverse(window));
  }

  // ---------------------------------------------------------------------
  // Snapshot properties

  /** An empty window zeroes every figure and carries the three sticky
      fields over from the previous snapshot. */
  lemma EmptyWindowSnapshot(previous: Metrics)
    ensures CalculateMetrics([], previous)
            == Metrics(0, 0, 0, 0, 0, [], previous.lastBlockNumber, previous.lastChainId, previous.syncingStatus, [])
  {
  }

  lemma {:induction false} AllSuccessCounts(w: seq<CallRecord>)
    requires forall r :: r in w ==> r.isSuccess
    ensures SuccessCount(w) == |w| && ErrorLines(w) == []
  {
    if |w| > 0 {
      assert w[|w| - 1] in w;
      assert forall r :: r in w[..|w| - 1] ==> r in w;
      AllSuccessCounts(w[..|w| - 1]);
    }
  }

  /** A window of successes only: a 100.0 rate, no error lines, and the
      average is the mean duration rounded to the nearest millisecond. */
  lemma AllSuccessSnapshot(window: seq<CallRecord>, previous: Metrics)
    requires |window| > 0
    requires forall r :: r in window ==> r.isSuccess
    ensures var m := CalculateMetrics(window, previous);
            m.successRateTenths == 1000 && m.failedRequests == 0 && m.errorMessages == []
            && RoundsAwayFromZero(m.averageResponseTimeMs, SuccessTime(window), |window|)
  {
    AllSuccessCounts(window);
    var m := CalculateMetrics(window, previous);
    AllSuccessFigures(m, |window|, SuccessTime(window));
    assert m.errorMessages == [];
  }

  /** The figures of a snapshot whose every request succeeded. */
  lemma AllSuccessFigures(m: Metrics, n: nat, total: int)
    requires n > 0 && m.totalRequests == n && m.successfulRequests == n
    requires m.successfulRequests + m.failedRequests == m.totalRequests
    requires RoundsAwayFromZero(m.successRateTenths, 1000 * m.successfulRequests, n)
    requires RoundsAwayFromZero(m.averageResponseTimeMs, total, m.successfulRequests)
    ensures m.successRateTenths == 1000 && m.failedRequests == 0
    ensures RoundsAwayFromZero(m.averageResponseTimeMs, total, n)
  {
    FullRate(m.successRateTenths, n);
  }

  /** Every call a success: the rate is exactly 100.0. */
  lemma FullRate(r: int, n: nat)
    requires n > 0 && RoundsAwayFromZero(r, 1000 * n, n)
    ensures r == 1000
  {
    assert 1000 * n == n * 1000;
    NearestOfMultiple(r, 1000, n);
  }

  lemma CancelFactor(d: int, x: int, y: int)
    requires d > 0 && d * x <= d * y
    ensures x <= y
  {
  }

  /** The nearest integer to `d * q / d` is `q`. */
  lemma NearestOfMultiple(r: int, q: int, d: int)
    requires d > 0 && IsNearest(r, d * q, d)
    ensures r == q
  {
    CancelFactor(d, 2 * r - 1, 2 * q);
    CancelFactor(d, 2 * q, 2 * r + 1);
  }

  /** A window whose only record is a successful `eth_blockNumber` call
      answering a string reports that string as the latest block number. */
  lemma BlockNumberIsReported(record: CallRecord, previous: Metrics, block: string)
    requires record.isSuccess && record.methodName == RpcService.BlockNumberMethod
    requires record.result == Some(JString(block))
    ensures CalculateMetrics([record], previous).lastBlockNumber == Some(block)
  {
  }

  /** Two calls of one method, the first answered with a result and the
      second with a JSON-RPC error "boom": two requests, one success, one
      failure, a 50.0 rate and the single error line `[method]: boom`. */
  lemma MixedRepliesSnapshot(methodName: string, t0: int, t1: int, t2: int, t3: int, previous: Metrics)
    ensures
      var ok := RpcService.ClassifyReply(methodName, t0, t1,
                  RpcService.HttpResponse(200, JObject([("result", JString("0x5"))])));
      var boom := JObject([("code", JNumber(-32000)), ("message", JString("boom"))]);
      var bad := RpcService.ClassifyReply(methodName, t2, t3,
                  RpcService.HttpResponse(200, JObject([("error", boom)])));
      var m := CalculateMetrics([ok, bad], previous);
      m.totalRequests == 2 && m.successfulRequests == 1 && m.failedRequests == 1
      && m.successRateTenths == 500 && m.errorMessages == ["[" + methodName + "]: boom"]
  {
    ResultReplySucceeds(methodName, t0, t1);
    BoomReplyFails(methodName, t2, t3);
    var ok := RpcService.ClassifyReply(methodName, t0, t1,
                RpcService.HttpResponse(200, JObject([("result", JString("0x5"))])));
    var boom := JObject([("code", JNumber(-32000)), ("message", JString("boom"))]);
    var bad := RpcService.ClassifyReply(methodName, t2, t3,
                RpcService.HttpResponse(200, JObject([("error", boom)])));
    SuccessThenFailure(ok, bad, previous);
  }

  lemma ResultReplySucceeds(methodName: string, t0: int, t1: int)
    ensures RpcService.ClassifyReply(methodName, t0, t1,
              RpcService.HttpResponse(200, JObject([("result", JString("0x5"))]))).isSuccess
  {
    var okBody := JObject([("result", JString("0x5"))]);
    assert okBody.members[0].0 == "result";
  }

  lemma BoomReplyFails(methodName: string, t2: int, t3: int)
    ensures var boom := JObject([("code", JNumber(-32000)), ("message", JString("boom"))]);
            var bad := RpcService.ClassifyReply(methodName, t2, t3,
                         RpcService.HttpResponse(200, JObject([("error", boom)])));
            IsErrorRecord(bad) && ErrorLine(bad) == "[" + methodName + "]: boom"
  {
    var boom := JObject([("code", JNumber(-32000)), ("message", JString("boom"))]);
    var badBody := JObject([("error", boom)]);
    assert HasKey(badBody, "error") && !HasKey(badBody, "result") by {
      assert badBody.members[0].0 == "error";
    }
    assert GetString(boom, "message") == Some("boom") by {
      assert boom.members[1..][0] == ("message", JString("boom"));
    }
    assert Get(badBody, "error") == Some(boom);
  }

  /** A success followed by a failure that carries an error: a 50.0 rate
      and the failure's line as the only error message. */
  lemma SuccessThenFailure(ok: CallRecord, bad: CallRecord, previous: Metrics)
    requires ok.isSuccess && IsErrorRecord(bad)
    ensures var m := CalculateMetrics([ok, bad], previous);
            m.totalRequests == 2 && m.successfulRequests == 1 && m.failedRequests == 1
            && m.successRateTenths == 500 && m.errorMessages == [ErrorLine(bad)]
  {
    var w := [ok, bad];
    assert w[..1] == [ok];
    assert [ok][..0] == [];
    assert ErrorLines(w) == [ErrorLine(bad)];
    NearestOfMultiple(CalculateMetrics(w, previous).successRateTenths, 500, 2);
  }

  // ---------------------------------------------------------------------
  // The polling cycle

  /** What decides the three calls of one cycle. */
  datatype CycleInputs = CycleInputs(
    blockNumber: RpcService.CallInput,
    chainId: RpcService.CallInput,
    syncing: RpcService.CallInput)

  /** A cycle asks for the block number, the chain id and the syncing
      status, in that order. */
  function CyclePlan(inputs: CycleInputs): (plan: seq<RpcService.PlannedCall>)
    ensures |plan| == 3
    ensures plan[0].methodName == RpcService.BlockNumberMethod && plan[0].input == inputs.blockNumber
    ensures plan[1].methodName == RpcService.ChainIdMethod && plan[1].input == inputs.chainId
    ensures plan[2].methodName == RpcService.SyncingMethod && plan[2].input == inputs.syncing
  {
    [RpcService.PlannedCall(RpcService.BlockNumberMethod, inputs.blockNumber),
     RpcService.PlannedCall(RpcService.ChainIdMethod, inputs.chainId),
     RpcService.PlannedCall(RpcService.SyncingMethod, inputs.syncing)]
  }

  /** The records of the calls that settled with one, in call order; a
      rejected call contributes nothing. */
  function FulfilledRecords(settled: seq<RpcService.Settled>): (rs: seq<CallRecord>)
    ensures |rs| == RpcService.CountFulfilled(settled)
  {
    if |settled| == 0 then []
    else
      var last := settled[|settled| - 1];
      FulfilledRecords(settled[..|settled| - 1]) + (if last.Fulfilled? then [last.record] else [])
  }

  function Methods(rs: seq<CallRecord>): (ms: seq<string>)
    ensures |ms| == |rs|
  {
    if |rs| == 0 then [] else Methods(rs[..|rs| - 1]) + [rs[|rs| - 1].methodName]
  }

  /** The method names of the planned calls that settled with a record. */
  function KeptMethods(calls: seq<RpcService.PlannedCall>, settled: seq<RpcService.Settled>): seq<string>
    requires |settled| == |calls|
  {
    if |calls| == 0 then []
    else
      KeptMethods(calls[..|calls| - 1], settled[..|settled| - 1])
      + (if settled[|settled| - 1].Fulfilled? then [calls[|calls| - 1].methodName] else [])
  }

  /** The records a batch yields name, in order, exactly the methods of
      the calls that were not rejected. */
  lemma {:induction false} FulfilledInCallOrder(calls: seq<RpcService.PlannedCall>, settled: seq<RpcService.Settled>)
    requires |settled| == |calls|
    requires forall i :: 0 <= i < |calls| && settled[i].Fulfilled? ==>
               settled[i].record.methodName == calls[i].methodName
    ensures Methods(FulfilledRecords(settled)) == KeptMethods(calls, settled)
  {
    if |calls| > 0 {
      var n := |calls| - 1;
      assert forall i :: 0 <= i < n ==> settled[..n][i] == settled[i] && calls[..n][i] == calls[i];
      FulfilledInCallOrder(calls[..n], settled[..n]);
      var rs := FulfilledRecords(settled);
      var before := FulfilledRecords(settled[..n]);
      if settled[n].Fulfilled? {
        assert rs == before + [settled[n].record];
        assert rs[..|rs| - 1] == before;
      } else {
        assert rs == before;
      }
    }
  }

  /** The poller's timers: the live repeating intervals, the one whose
      handle the service recorded, the startup cycles still running, and
      the cycles launched by interval ticks that are still running. */
  datatype Poller = Poller(timers: seq<nat>, recorded: Option<nat>, nextTimer: nat, pendingStartups: nat,
                           runningCycles: nat)

  /** The whole service state; `published` is what the broadcast sink has
      received, oldest first. */
  datatype Service = Service(
    window: seq<CallRecord>,
    metrics: Metrics,
    rpc: RpcService.RpcState,
    limiter: seq<int>,
    poller: Poller,
    published: seq<Metrics>)

  const InitialService := Service([], InitialMetrics, RpcService.InitialRpcState, [], Poller([], None, 0, 0, 0), [])

  /** `performPollingCycle`: make the three calls, append the record of
      every call that was not rejected, recompute the snapshot and
      publish it. */
  function PollingCycle(s: Service, inputs: CycleInputs): (r: Service)
    ensures var batch := RpcService.SendAll(s.rpc, s.limiter, CyclePlan(inputs));
            var added := FulfilledRecords(batch.settled);
            |added| <= 3
            && (|s.window| <= MaxRecords ==> r.window == LastN(s.window + added, MaxRecords))
            && Methods(added) == KeptMethods(CyclePlan(inputs), batch.settled)
            && r.rpc.nextId == s.rpc.nextId + |added|
    ensures r.metrics == CalculateMetrics(r.window, s.metrics)
    ensures r.published == s.published + [r.metrics]
    ensures r.poller == s.poller
  {
    var batch := RpcService.SendAll(s.rpc, s.limiter, CyclePlan(inputs));
    var added := FulfilledRecords(batch.settled);
    RpcService.OneIdPerFulfilledCall(s.rpc, s.limiter, CyclePlan(inputs));
    RpcService.RecordsMatchCalls(s.rpc, s.limiter, CyclePlan(inputs));
    FulfilledInCallOrder(CyclePlan(inputs), batch.settled);
    assert |s.window| <= MaxRecords ==> AddAll(s.window, added) == LastN(s.window + added, MaxRecords) by {
      if |s.window| <= MaxRecords {
        WindowKeepsLastAppended(s.window, added);
      }
    }
    var window := AddAll(s.window, added);
    var metrics := CalculateMetrics(window, s.metrics);
    Service(window, metrics, batch.rpc, batch.limiter, s.poller, s.published + [metrics])
  }

  /** A service whose snapshot describes its window: the request count,
      the success count and the reversed records all agree with it, and
      the window holds at most 100 records. */
  predicate Coherent(s: Service) {
    |s.window| <= MaxRecords
    && s.metrics.totalRequests == |s.window|
    && s.metrics.successfulRequests == SuccessCount(s.window)
    && s.metrics.callRecords == Reverse(s.window)
  }

  /** `getLatestMetrics`: a copy of the current snapshot, which, in a
      coherent service, describes the current window (newest record
      first). */
  function GetLatestMetrics(s: Service): (m: Metrics)
    ensures Coherent(s) ==>
              m.totalRequests == |s.window| && m.successfulRequests == SuccessCount(s.window)
              && |m.callRecords| == |s.window|
              && forall i :: 0 <= i < |s.window| ==> m.callRecords[i] == s.window[|s.window| - 1 - i]
  {
    s.metrics
  }

  /** The snapshot a cycle publishes is the one `getLatestMetrics` then
      returns, and it reflects the window the cycle left behind. */
  lemma PublishedSnapshotIsLatest(s: Service, inputs: CycleInputs)
    ensures var r := PollingCycle(s, inputs);
            |r.published| > 0 && r.published[|r.published| - 1] == GetLatestMetrics(r)
            && GetLatestMetrics(r).totalRequests == |r.window|
  {
  }

  /** `resetMetricsState`: empty window, initial snapshot; the poller, the
      request counter and the rate limiter are untouched, and nothing is
      published. */
  function ResetMetricsState(s: Service): (r: Service)
    ensures r.window == [] && r.metrics == InitialMetrics
    ensures r.metrics.totalRequests == 0 && r.metrics.successfulRequests == 0 && r.metrics.failedRequests == 0
    ensures r.metrics.successRateTenths == 0 && r.metrics.averageResponseTimeMs == 0
    ensures r.metrics.errorMessages == [] && r.metrics.callRecords == []
    ensures r.metrics.lastBlockNumber.None? && r.metrics.lastChainId.None? && r.metrics.syncingStatus.None?
    ensures r.poller == s.poller && r.rpc == s.rpc && r.limiter == s.limiter && r.published == s.published
  {
    s.(window := [], metrics := InitialMetrics)
  }

  /** After a reset no stale value survives: a cycle in which every call
      is rejected publishes the initial snapshot. */
  lemma ResetForgetsStickyFields(s: Service, inputs: CycleInputs)
    requires forall i :: 0 <= i < |RpcService.SendAll(s.rpc, s.limiter, CyclePlan(inputs)).settled| ==>
               RpcService.SendAll(s.rpc, s.limiter, CyclePlan(inputs)).settled[i].Rejected?
    ensures PollingCycle(ResetMetricsState(s), inputs).metrics == InitialMetrics
  {
    NoneFulfilled(RpcService.SendAll(s.rpc, s.limiter, CyclePlan(inputs)).settled);
  }

  lemma {:induction false} NoneFulfilled(settled: seq<RpcService.Settled>)
    requires forall i :: 0 <= i < |settled| ==> settled[i].Rejected?
    ensures RpcService.CountFulfilled(settled) == 0
  {
    if |settled| > 0 {
      NoneFulfilled(settled[..|settled| - 1]);
    }
  }

  // ---------------------------------------------------------------------
  // The poller

  datatype Event =
    | Start
    | StartupSettled(inputs: CycleInputs)
    | Tick(timer: nat)
    | CycleSettled(inputs: CycleInputs)
    | Stop
    | Reset

  function Remove(timers: seq<nat>, t: nat): (r: seq<nat>)
    ensures forall i :: 0 <= i < |r| ==> r[i] != t && r[i] in timers
    ensures t !in r
  {
    if |timers| == 0 then []
    else (if timers[0] == t then [] else [timers[0]]) + Remove(timers[1..], t)
  }

  /** The end of a startup cycle: its records land, and the interval is
      armed unless one is already recorded. */
  function SettleStartup(s: Service, inputs: CycleInputs): (r: Service)
    requires s.poller.pendingStartups > 0
    ensures r.poller.pendingStartups == s.poller.pendingStartups - 1
    ensures s.poller.recorded.None? ==>
              r.poller.recorded == Some(s.poller.nextTimer) && r.poller.timers == s.poller.timers + [s.poller.nextTimer]
    ensures s.poller.recorded.Some? ==> r.poller.recorded == s.poller.recorded && r.poller.timers == s.poller.timers
    ensures r == PollingCycle(s, inputs).(poller := r.poller)
  {
    var p := s.poller;
    var c := PollingCycle(s, inputs);
    var q := p.(pendingStartups := p.pendingStartups - 1);
    if q.recorded.Some? then c.(poller := q)
    else c.(poller := q.(timers := q.timers + [q.nextTimer], recorded := Some(q.nextTimer), nextTimer := q.nextTimer + 1))
  }

  /** The end of a cycle an interval tick launched: its records land
      whether or not the interval has been cleared since. */
  function SettleCycle(s: Service, inputs: CycleInputs): (r: Service)
    requires s.poller.runningCycles > 0
    ensures r.poller == s.poller.(runningCycles := s.poller.runningCycles - 1)
    ensures r == PollingCycle(s, inputs).(poller := r.poller)
  {
    PollingCycle(s, inputs).(poller := s.poller.(runningCycles := s.poller.runningCycles - 1))
  }

  /** `stopMetricsService` with a recorded handle: clear that interval and
      forget the handle; the window and the snapshot stay. */
  function StopRecorded(s: Service): (r: Service)
    requires s.poller.recorded.Some?
    ensures r.poller.recorded.None? && s.poller.recorded.value !in r.poller.timers
    ensures r.window == s.window && r.metrics == s.metrics && r.published == s.published
  {
    var p := s.poller;
    s.(poller := p.(timers := Remove(p.timers, p.recorded.value), recorded := None))
  }

  /** One event:
      - `Start` does nothing while an interval handle is recorded, and
        otherwise launches a startup cycle;
      - when a startup cycle settles, it arms an interval unless a handle
        is recorded by then;
      - a tick of a live interval launches a cycle, which runs until its
        own `CycleSettled`; cycles launched by earlier ticks may still be
        running, and they settle in whatever order they finish, even
        after the interval is cleared;
      - `Stop` clears the recorded interval, and does nothing when none
        is recorded;
      - `Reset` is `resetMetricsState`. */
  function Step(s: Service, e: Event): (r: Service)
    ensures e.Start? && s.poller.recorded.Some? ==> r == s
    ensures e.Start? && s.poller.recorded.None? ==>
              r.poller.pendingStartups == s.poller.pendingStartups + 1 && r.poller.timers == s.poller.timers
              && r.window == s.window && r.metrics == s.metrics && r.published == s.published
    ensures e.StartupSettled? && s.poller.pendingStartups == 0 ==> r == s
    ensures e.StartupSettled? && s.poller.pendingStartups > 0 ==>
              r.poller.pendingStartups == s.poller.pendingStartups - 1
              && (s.poller.recorded.None? ==>
                    r.poller.recorded == Some(s.poller.nextTimer)
                    && r.poller.timers == s.poller.timers + [s.poller.nextTimer])
              && (s.poller.recorded.Some? ==> r.poller.recorded == s.poller.recorded && r.poller.timers == s.poller.timers)
              && r == PollingCycle(s, e.inputs).(poller := r.poller)
    ensures e.Tick? && e.timer in s.poller.timers ==>
              r == s.(poller := s.poller.(runningCycles := s.poller.runningCycles + 1))
    ensures e.Tick? && e.timer !in s.poller.timers ==> r == s
    ensures e.CycleSettled? && s.poller.runningCycles == 0 ==> r == s
    ensures e.CycleSettled? && s.poller.runningCycles > 0 ==>
              r == PollingCycle(s, e.inputs).(poller := s.poller.(runningCycles := s.poller.runningCycles - 1))
    ensures e.Stop? && s.poller.recorded.None? ==> r == s
    ensures e.Stop? ==>
              r.poller.recorded.None? && r.window == s.window && r.metrics == s.metrics && r.published == s.published
              && (s.poller.recorded.Some? ==> s.poller.recorded.value !in r.poller.timers)
    ensures e.Reset? ==> r == ResetMetricsState(s)
  {
    var p := s.poller;
    match e
    case Start =>
      if p.recorded.Some? then s else s.(poller := p.(pendingStartups := p.pendingStartups + 1))
    case StartupSettled(inputs) =>
      if p.pendingStartups == 0 then s else SettleStartup(s, inputs)
    case Tick(t) =>
      if t in p.timers then s.(poller := p.(runningCycles := p.runningCycles + 1)) else s
    case CycleSettled(inputs) =>
      if p.runningCycles == 0 then s else SettleCycle(s, inputs)
    case Stop =>
      if p.recorded.Some? then StopRecorded(s) else s
    case Reset =>
      ResetMetricsState(s)
  }

  function Run(s: Service, events: seq<Event>): Service
    decreases |events|
  {
    if |events| == 0 then s else Run(Step(s, events[0]), events[1..])
  }

  /** The live intervals are exactly the recorded one, if any. */
  predicate SingleTimer(p: Poller) {
    if p.recorded.Some? then p.timers == [p.recorded.value] else p.timers == []
  }

  /** Every event keeps at most one interval alive: the check made when a
      startup cycle settles stops a second start from arming another. */
  lemma StepKeepsSingleTimer(s: Service, e: Event)
    requires SingleTimer(s.poller)
    ensures SingleTimer(Step(s, e).poller)
    ensures |Step(s, e).poller.timers| <= 1
  {
    if e.Stop? && s.poller.recorded.Some? {
      var t := s.poller.recorded.value;
      assert Remove([t], t) == [] + Remove([], t);
    }
  }

  lemma {:induction false} RunKeepsSingleTimer(s: Service, events: seq<Event>)
    requires SingleTimer(s.poller)
    ensures SingleTimer(Run(s, events).poller)
    ensures |Run(s, events).poller.timers| <= 1
    decreases |events|
  {
    if |events| > 0 {
      StepKeepsSingleTimer(s, events[0]);
      RunKeepsSingleTimer(Step(s, events[0]), events[1..]);
    }
  }

  /** From a fresh process, whatever happens, at most one interval runs. */
  lemma NeverTwoIntervals(events: seq<Event>)
    ensures |Run(InitialService, events).poller.timers| <= 1
  {
    RunKeepsSingleTimer(InitialService, events);
  }

  /** Once stopped, ticks launch no cycle and publish nothing, however
      many intervals elapse. */
  lemma {:induction false} StoppedPollerIgnoresTicks(s: Service, ticks: seq<Event>)
    requires SingleTimer(s.poller) && s.poller.recorded.None?
    requires forall i :: 0 <= i < |ticks| ==> ticks[i].Tick?
    ensures Run(s, ticks) == s
  {
    if |ticks| > 0 {
      assert Step(s, ticks[0]) == s;
      StoppedPollerIgnoresTicks(s, ticks[1..]);
    }
  }

  /** `Stop` after any number of cycles leaves a poller that later ticks
      cannot wake. */
  lemma StopEndsPolling(s: Service, ticks: seq<Event>)
    requires SingleTimer(s.poller)
    requires forall i :: 0 <= i < |ticks| ==> ticks[i].Tick?
    ensures Run(Step(s, Stop), ticks) == Step(s, Stop)
    ensures Run(Step(s, Stop), ticks).published == s.published
  {
    StepKeepsSingleTimer(s, Stop);
    StoppedPollerIgnoresTicks(Step(s, Stop), ticks);
  }

  /** Clearing the interval does not cancel a cycle it already launched:
      that cycle still appends its records and publishes when it ends. */
  lemma CycleInFlightOutlivesStop(s: Service, inputs: CycleInputs)
    requires s.poller.runningCycles > 0
    ensures var r := Step(Step(s, Stop), CycleSettled(inputs));
            r.poller.recorded.None?
            && r.metrics == CalculateMetrics(r.window, s.metrics)
            && r.published == s.published + [r.metrics]
  {
    var stopped := Step(s, Stop);
    assert stopped.poller.runningCycles == s.poller.runningCycles;
  }

  /** Ticks do not wait for the cycles they launched: two ticks of a live
      interval leave two more cycles running, and publish nothing yet. */
  lemma TicksOverlapCycles(s: Service, t: nat)
    requires t in s.poller.timers
    ensures var r := Step(Step(s, Tick(t)), Tick(t));
            r.poller.runningCycles == s.poller.runningCycles + 2 && r.published == s.published
  {
  }

  /** `Start` while an interval is recorded, and `Stop` while none is, do
      nothing at all. */
  lemma RedundantStartStopAreNoOps(s: Service)
    ensures s.poller.recorded.Some? ==> Step(s, Start) == s
    ensures s.poller.recorded.None? ==> Step(s, Stop) == s
  {
  }

  /** A polling cycle keeps the snapshot in step with the window. */
  lemma CycleKeepsCoherent(s: Service, inputs: CycleInputs)
    requires Coherent(s)
    ensures Coherent(PollingCycle(s, inputs))
  {
    var c := PollingCycle(s, inputs);
    var added := FulfilledRecords(RpcService.SendAll(s.rpc, s.limiter, CyclePlan(inputs)).settled);
    assert c.window == LastN(s.window + added, MaxRecords);
    assert c.metrics == CalculateMetrics(c.window, s.metrics);
  }

  /** Every event keeps the snapshot in step with the window. */
  lemma StepKeepsCoherent(s: Service, e: Event)
    requires Coherent(s)
    ensures Coherent(Step(s, e))
  {
    match e
    case StartupSettled(inputs) =>
      if s.poller.pendingStartups > 0 {
        CycleKeepsCoherent(s, inputs);
      }
    case CycleSettled(inputs) =>
      if s.poller.runningCycles > 0 {
        CycleKeepsCoherent(s, inputs);
      }
    case Reset =>
      assert Reverse<CallRecord>([]) == [];
    case _ =>
  }

  lemma {:induction false} RunKeepsCoherent(s: Service, events: seq<Event>)
    requires Coherent(s)
    ensures Coherent(Run(s, events))
    decreases |events|
  {
    if |events| > 0 {
      StepKeepsCoherent(s, events[0]);
      RunKeepsCoherent(Step(s, events[0]), events[1..]);
    }
  }

  /** From a fresh process, whatever happens, `getLatestMetrics` reports
      the current window: its size, its successes and its records newest
      first. */
  lemma LatestDescribesWindow(events: seq<Event>)
    ensures var s := Run(InitialService, events);
            var m := GetLatestMetrics(s);
            |s.window| <= MaxRecords && m.totalRequests == |s.window|
            && m.successfulRequests == SuccessCount(s.window) && m.callRecords == Reverse(s.window)
  {
    assert Reverse<CallRecord>([]) == [];
    RunKeepsCoherent(InitialService, events);
  }

  /** Three events in a row. */
  lemma RunThree(s: Service, a: Event, b: Event, c: Event)
    ensures Run(s, [a, b, c]) == Step(Step(Step(s, a), b), c)
  {
    var s1 := Step(s, a);
    var s2 := Step(s1, b);
    assert [a, b, c][1..] == [b, c];
    assert [b, c][1..] == [c];
    assert Run(s, [a, b, c]) == Run(s1, [b, c]);
    assert Run(s1, [b, c]) == Run(s2, [c]);
    assert Run(s2, [c]) == Run(Step(s2, c), []);
  }

  /** A `Stop` that arrives while the first cycle is still running finds
      no interval to clear, so the poller is armed once that cycle ends;
      in particular this happens from a fresh process. */
  lemma StopDuringStartupIsOverridden(s: Service, inputs: CycleInputs)
    requires s.poller.recorded.None?
    ensures Run(s, [Start, Stop, StartupSettled(inputs)]).poller.recorded.Some?
  {
    var s1 := Step(s, Start);
    assert s1.poller.recorded.None? && s1.poller.pendingStartups > 0;
    var s2 := Step(s1, Stop);
    assert s2 == s1;
    RunThree(s, Start, Stop, StartupSettled(inputs));
  }
}
