/** The outbound rate limiter: a list of grant timestamps, oldest first,
    that admits a request only while fewer than 300 grants lie in the
    trailing 10-second window. The clock is an explicit `now` argument and
    sleeping is modelled as advancing it. */
module RateLimiter {

  const MaxRequests: nat := 300
  const WindowMs: int := 10000
  /** The default patience of a waiter: twice the window. */
  const DefaultMaxWaitMs: int := 2 * WindowMs
  /** The shortest sleep between two attempts. */
  const MinDelayMs: int := 100
  /** Extra time slept past the moment the oldest grant leaves the window. */
  const SlotMarginMs: int := 50

  /** A grant at `t` still occupies a slot at time `now`. */
  predicate Live(t: int, now: int) {
    t > now - WindowMs
  }

  /** Oldest first: each grant is no later than the next one. */
  predicate Sorted(ts: seq<int>) {
    forall i :: 0 < i < |ts| ==> ts[i - 1] <= ts[i]
  }

  predicate NotAfter(ts: seq<int>, now: int) {
    forall i :: 0 <= i < |ts| ==> ts[i] <= now
  }

  lemma NotAfterLater(ts: seq<int>, now: int, later: int)
    requires NotAfter(ts, now) && now <= later
    ensures NotAfter(ts, later)
  {
  }

  /** The limiter's state invariant: at most 300 grants, oldest first. */
  predicate Valid(ts: seq<int>) {
    |ts| <= MaxRequests && Sorted(ts)
  }

  /** The grants of `ts` still live at `now`, in order: the reference for
      what pruning and counting should see. */
  function LiveTimestamps(ts: seq<int>, now: int): (r: seq<int>)
    ensures |r| <= |ts|
    ensures forall i :: 0 <= i < |r| ==> Live(r[i], now)
  {
    if |ts| == 0 then []
    else (if Live(ts[0], now) then [ts[0]] else []) + LiveTimestamps(ts[1..], now)
  }

  /** Drops expired grants from the front of the list, stopping at the
      first live one. */
  function Prune(ts: seq<int>, now: int): (r: seq<int>)
    ensures |r| <= |ts| && r == ts[|ts| - |r|..]
    ensures forall i :: 0 <= i < |ts| - |r| ==> !Live(ts[i], now)
    ensures |r| > 0 ==> Live(r[0], now)
  {
    if |ts| > 0 && !Live(ts[0], now) then
      var r := Prune(ts[1..], now);
      assert ts[1..][|ts| - 1 - |r|..] == ts[|ts| - |r|..];
      assert forall i :: 1 <= i < |ts| - |r| ==> ts[i] == ts[1..][i - 1];
      r
    else ts
  }

  datatype Attempt = Attempt(allowed: bool, timestamps: seq<int>)

  /** One admission attempt at `now`: prune, then grant and record `now`
      if fewer than 300 grants remain. On a sorted list the attempt keeps
      exactly the live grants, and it grants exactly when fewer than 300
      of them are live. */
  function IsRequestAllowed(ts: seq<int>, now: int): (r: Attempt)
    ensures Sorted(ts) ==> (r.allowed <==> |LiveTimestamps(ts, now)| < MaxRequests)
    ensures Sorted(ts) ==> r.timestamps == LiveTimestamps(ts, now) + (if r.allowed then [now] else [])
    ensures r.allowed ==> 0 < |r.timestamps| <= MaxRequests && r.timestamps[|r.timestamps| - 1] == now
    ensures |ts| <= MaxRequests ==> |r.timestamps| <= MaxRequests
  {
    var live := Prune(ts, now);
    assert Sorted(ts) ==> live == LiveTimestamps(ts, now) by {
      if Sorted(ts) {
        PruneIsLiveFilter(ts, now);
      }
    }
    if |live| < MaxRequests then Attempt(true, live + [now]) else Attempt(false, live)
  }

  /** An attempt keeps the invariant: at most 300 grants, oldest first,
      none later than the attempt. */
  lemma AttemptKeepsValid(ts: seq<int>, now: int)
    requires Valid(ts) && NotAfter(ts, now)
    ensures Valid(IsRequestAllowed(ts, now).timestamps) && NotAfter(IsRequestAllowed(ts, now).timestamps, now)
  {
    var live := Prune(ts, now);
    SuffixKeepsOrder(ts, now, |ts| - |live|);
    assert Sorted(live) && NotAfter(live, now) by {
      assert forall i :: 0 <= i < |live| ==> live[i] == (live + [now])[i];
    }
  }

  /** `getCurrentRequestCount`: the number of live grants, read without
      changing the list. */
  function CurrentRequestCount(ts: seq<int>, now: int): (n: nat)
    ensures n <= |ts|
  {
    |LiveTimestamps(ts, now)|
  }

  /** `resetRateLimiterState`. */
  function ResetRateLimiterState(): (ts: seq<int>)
    ensures Valid(ts) && forall now :: CurrentRequestCount(ts, now) == 0
  {
    []
  }

  lemma SuffixKeepsOrder(ts: seq<int>, now: int, k: nat)
    requires Sorted(ts) && NotAfter(ts, now) && k <= |ts|
    ensures Sorted(ts[k..] + [now]) && NotAfter(ts[k..] + [now], now)
  {
    var s := ts[k..] + [now];
    assert forall i :: 0 <= i < |s| - 1 ==> s[i] == ts[k + i];
  }

  lemma {:induction false} PruneIsLiveFilter(ts: seq<int>, now: int)
    requires Sorted(ts)
    ensures Prune(ts, now) == LiveTimestamps(ts, now)
  {
    if |ts| > 0 {
      if !Live(ts[0], now) {
        PruneIsLiveFilter(ts[1..], now);
      } else {
        AllLiveAfterLive(ts, now);
      }
    }
  }

  lemma {:induction false} AllLiveAfterLive(ts: seq<int>, now: int)
    requires Sorted(ts) && |ts| > 0 && Live(ts[0], now)
    ensures LiveTimestamps(ts, now) == ts
  {
    if |ts| > 1 {
      assert ts[0] <= ts[1];
      assert forall i :: 0 < i < |ts[1..]| ==> ts[1..][i - 1] == ts[i];
      AllLiveAfterLive(ts[1..], now);
    }
  }

  /** Time moving forward can only lower the count of live grants. */
  lemma {:induction false} CountNeverRisesWithTime(ts: seq<int>, now: int, later: int)
    requires now <= later
    ensures CurrentRequestCount(ts, later) <= CurrentRequestCount(ts, now)
  {
    if |ts| > 0 {
      CountNeverRisesWithTime(ts[1..], now, later);
    }
  }

  /** Filtering twice, by an earlier and then a later instant, is the same
      as filtering once by the later instant. */
  lemma {:induction false} LiveTwice(ts: seq<int>, earlier: int, later: int)
    requires earlier <= later
    ensures LiveTimestamps(LiveTimestamps(ts, earlier), later) == LiveTimestamps(ts, later)
  {
    if |ts| > 0 {
      LiveTwice(ts[1..], earlier, later);
      var rest := LiveTimestamps(ts[1..], earlier);
      if Live(ts[0], earlier) {
        var once := [ts[0]] + rest;
        assert LiveTimestamps(ts, earlier) == once;
        assert once[0] == ts[0] && once[1..] == rest;
        assert LiveTimestamps(once, later)
            == (if Live(ts[0], later) then [ts[0]] else []) + LiveTimestamps(rest, later);
      } else {
        assert LiveTimestamps(ts, earlier) == rest;
        assert !Live(ts[0], later);
        assert LiveTimestamps(ts, later) == LiveTimestamps(ts[1..], later);
      }
    }
  }

  // ---------------------------------------------------------------------
  // Bursts at one instant

  function Repeat(t: int, n: nat): (r: seq<int>)
    ensures |r| == n && forall i :: 0 <= i < n ==> r[i] == t
  {
    if n == 0 then [] else Repeat(t, n - 1) + [t]
  }

  lemma {:induction false} RepeatAllLive(t: int, n: nat, now: int)
    requires Live(t, now)
    ensures LiveTimestamps(Repeat(t, n), now) == Repeat(t, n)
  {
    if n > 0 {
      AllLiveAfterLive(Repeat(t, n), now);
    }
  }

  /** With `i < 300` grants already recorded at the same instant, one more
      attempt at that instant is granted and the count becomes `i + 1`. */
  lemma BurstAttemptGranted(now: int, i: nat)
    requires i < MaxRequests
    ensures IsRequestAllowed(Repeat(now, i), now) == Attempt(true, Repeat(now, i + 1))
    ensures CurrentRequestCount(Repeat(now, i + 1), now) == i + 1
  {
    RepeatAllLive(now, i, now);
    RepeatAllLive(now, i + 1, now);
  }

  /** After 300 grants at instant `t`, an attempt is refused for as long as
      those grants are live, and granted once they have left the window. */
  lemma FullWindowRefusedUntilOldestExpires(t: int, now: int)
    requires t <= now
    ensures IsRequestAllowed(Repeat(t, MaxRequests), now).allowed <==> now >= t + WindowMs
  {
    if Live(t, now) {
      RepeatAllLive(t, MaxRequests, now);
    } else {
      ExpiredRepeat(t, MaxRequests, now);
    }
  }

  lemma {:induction false} ExpiredRepeat(t: int, n: nat, now: int)
    requires !Live(t, now)
    ensures LiveTimestamps(Repeat(t, n), now) == []
  {
    if n > 0 {
      ExpiredRepeat(t, n - 1, now);
      LiveAppend(Repeat(t, n - 1), t, now);
    }
  }

  lemma {:induction false} LiveAppend(ts: seq<int>, x: int, now: int)
    ensures LiveTimestamps(ts + [x], now) == LiveTimestamps(ts, now) + (if Live(x, now) then [x] else [])
  {
    if |ts| > 0 {
      assert (ts + [x])[1..] == ts[1..] + [x];
      LiveAppend(ts[1..], x, now);
    } else {
      assert ts + [x] == [x];
    }
  }

  /** After a reset the next attempt is granted and the count is 1. */
  lemma ResetThenGranted(now: int)
    ensures IsRequestAllowed(ResetRateLimiterState(), now) == Attempt(true, [now])
    ensures CurrentRequestCount([now], now) == 1
  {
  }

  // ---------------------------------------------------------------------
  // Waiting for permission

  /** What happens while a waiter sleeps: its timer fires `lateMs` after the
      delay it asked for, and `rivals` other acquirers make their own
      attempts at that instant before it retries. */
  datatype Wake = Wake(lateMs: nat, rivals: nat)

  datatype WaitResult =
    | Permitted(timestamps: seq<int>, grantedAt: int)
    | RateLimitTimeout(timestamps: seq<int>, failedAt: int)

  /** One pass of the retry loop: either the wait is over, or the waiter
      sleeps and retries at `later` against the list `timestamps`. */
  datatype WaitStep =
    | Finished(result: WaitResult)
    | Retry(timestamps: seq<int>, later: int)
  {
    /** The grant list after this pass. */
    function List(): seq<int> {
      if Finished? then result.timestamps else timestamps
    }
  }

  function Max(a: int, b: int): int {
    if a >= b then a else b
  }

  /** The sleep chosen after a refusal at `now`: 100 ms, or, when the list
      is full, until 50 ms after its oldest grant leaves the window if
      that is longer. */
  function SleepDelay(ts: seq<int>, now: int): (d: int)
    ensures d >= MinDelayMs
    ensures |ts| >= MaxRequests ==> now + d >= ts[0] + WindowMs + SlotMarginMs
  {
    if |ts| >= MaxRequests then Max(MinDelayMs, ts[0] + WindowMs - now + SlotMarginMs) else MinDelayMs
  }

  /** `k` attempts by other acquirers, all at instant `now`. */
  function RivalAttempts(ts: seq<int>, now: int, k: nat): (r: seq<int>)
    ensures Valid(ts) && NotAfter(ts, now) ==> Valid(r) && NotAfter(r, now)
    ensures k == 0 ==> r == ts
    decreases k
  {
    if k == 0 then ts
    else
      var next := IsRequestAllowed(ts, now).timestamps;
      assert Valid(ts) && NotAfter(ts, now) ==> Valid(next) && NotAfter(next, now) by {
        if Valid(ts) && NotAfter(ts, now) {
          AttemptKeepsValid(ts, now);
        }
      }
      RivalAttempts(next, now, k - 1)
  }

  /** One pass of `waitForRateLimitPermission`'s loop at `now`: a granted
      attempt ends the wait; a refused one ends it with a timeout exactly
      when more than `maxWaitMs` has passed since `startTime`; otherwise
      the waiter sleeps at least 100 ms. */
  function StepWait(ts: seq<int>, startTime: int, now: int, maxWaitMs: int, wake: Wake): (r: WaitStep)
    ensures r.Finished? && r.result.Permitted? <==> IsRequestAllowed(ts, now).allowed
    ensures r.Finished? && r.result.RateLimitTimeout? <==>
              !IsRequestAllowed(ts, now).allowed && now - startTime > maxWaitMs
    ensures r.Finished? ==> r.result.timestamps == IsRequestAllowed(ts, now).timestamps
    ensures r.Finished? && r.result.Permitted? ==> r.result.grantedAt == now
    ensures r.Finished? && r.result.RateLimitTimeout? ==> r.result.failedAt == now
    ensures r.Retry? ==> r.later >= now + MinDelayMs && now - startTime <= maxWaitMs
    ensures Valid(ts) && NotAfter(ts, now) ==>
              Valid(r.List()) && NotAfter(r.List(), if r.Retry? then r.later else now)
  {
    var a := IsRequestAllowed(ts, now);
    assert Valid(ts) && NotAfter(ts, now) ==> Valid(a.timestamps) && NotAfter(a.timestamps, now) by {
      if Valid(ts) && NotAfter(ts, now) {
        AttemptKeepsValid(ts, now);
      }
    }
    if a.allowed then Finished(Permitted(a.timestamps, now))
    else if now - startTime > maxWaitMs then Finished(RateLimitTimeout(a.timestamps, now))
    else
      var later := now + SleepDelay(a.timestamps, now) + wake.lateMs;
      assert Valid(ts) && NotAfter(ts, now) ==> NotAfter(a.timestamps, later);
      Retry(RivalAttempts(a.timestamps, later, wake.rivals), later)
  }

  /** The retry loop from its attempt at `now`; wake number `attempt`
      describes the next sleep (an on-time timer and no rivals once
      `wakes` runs out). Every sleep lasts at least 100 ms, so the loop
      ends. */
  function WaitFrom(ts: seq<int>, startTime: int, now: int, maxWaitMs: int, wakes: seq<Wake>, attempt: nat)
    : (r: WaitResult)
    ensures r.Permitted? ==> r.grantedAt >= now && |r.timestamps| > 0
                             && r.timestamps[|r.timestamps| - 1] == r.grantedAt
    ensures r.RateLimitTimeout? ==> r.failedAt >= now && r.failedAt - startTime > maxWaitMs
    decreases maxWaitMs - (now - startTime) + MinDelayMs
  {
    var wake := if attempt < |wakes| then wakes[attempt] else Wake(0, 0);
    match StepWait(ts, startTime, now, maxWaitMs, wake)
    case Finished(r) => r
    case Retry(next, later) => WaitFrom(next, startTime, later, maxWaitMs, wakes, attempt + 1)
  }

  /** `waitForRateLimitPermission(maxWaitMs)` called at `now`. */
  function WaitForRateLimitPermission(ts: seq<int>, now: int, maxWaitMs: int, wakes: seq<Wake>)
    : (r: WaitResult)
    ensures r.Permitted? ==> r.grantedAt >= now && |r.timestamps| > 0
                             && r.timestamps[|r.timestamps| - 1] == r.grantedAt
    ensures r.RateLimitTimeout? ==> r.failedAt - now > maxWaitMs
  {
    WaitFrom(ts, now, now, maxWaitMs, wakes, 0)
  }

  /** Waiting keeps the limiter's invariant: at most 300 grants, oldest
      first. */
  lemma {:induction false} WaitKeepsValid(ts: seq<int>, startTime: int, now: int, maxWaitMs: int, wakes: seq<Wake>, attempt: nat)
    requires Valid(ts) && NotAfter(ts, now)
    ensures Valid(WaitFrom(ts, startTime, now, maxWaitMs, wakes, attempt).timestamps)
    decreases maxWaitMs - (now - startTime) + MinDelayMs
  {
    var wake := if attempt < |wakes| then wakes[attempt] else Wake(0, 0);
    var step := StepWait(ts, startTime, now, maxWaitMs, wake);
    if step.Retry? {
      WaitKeepsValid(step.timestamps, startTime, step.later, maxWaitMs, wakes, attempt + 1);
    }
  }

  /** A waiter that meets no rival acquirers is never timed out: if its
      first attempt is refused the list is full, and its sleep outlasts
      the oldest grant, so the second attempt finds a free slot. */
  lemma SoleWaiterIsPermitted(ts: seq<int>, now: int, maxWaitMs: int, wakes: seq<Wake>)
    requires Valid(ts) && NotAfter(ts, now) && maxWaitMs >= 0
    requires forall i :: 0 <= i < |wakes| ==> wakes[i].rivals == 0
    ensures WaitForRateLimitPermission(ts, now, maxWaitMs, wakes).Permitted?
  {
    var wake := if 0 < |wakes| then wakes[0] else Wake(0, 0);
    var step := StepWait(ts, now, now, maxWaitMs, wake);
    if step.Retry? {
      var live := IsRequestAllowed(ts, now).timestamps;
      assert |live| == MaxRequests;
      assert step.timestamps == live;
      assert !Live(live[0], step.later);
      var pruned := Prune(live, step.later);
      var wake1 := if 1 < |wakes| then wakes[1] else Wake(0, 0);
      var step1 := StepWait(live, now, step.later, maxWaitMs, wake1);
      assert step1.Finished? && step1.result.Permitted?;
      assert WaitFrom(live, now, step.later, maxWaitMs, wakes, 1) == step1.result;
      assert WaitFrom(ts, now, now, maxWaitMs, wakes, 0) == WaitFrom(live, now, step.later, maxWaitMs, wakes, 1);
    } else {
      assert WaitFrom(ts, now, now, maxWaitMs, wakes, 0) == step.result;
    }
  }

  /** From `i < 300` grants at the same instant, a wait started at that
      instant is granted at once and leaves `i + 1` grants. */
  lemma BurstWaitGranted(now: int, i: nat, maxWaitMs: int, wakes: seq<Wake>)
    requires i < MaxRequests
    ensures WaitForRateLimitPermission(Repeat(now, i), now, maxWaitMs, wakes) == Permitted(Repeat(now, i + 1), now)
    ensures CurrentRequestCount(Repeat(now, i + 1), now) == i + 1
  {
    BurstAttemptGranted(now, i);
  }

  // ---------------------------------------------------------------------
  // The sliding-window guarantee over a whole run

  predicate NonDecreasing(times: seq<int>) {
    forall i, j :: 0 <= i < j < |times| ==> times[i] <= times[j]
  }

  /** Attempts at the given instants from an empty list: the instants that
      were granted, and the final list. */
  datatype Trace = Trace(granted: seq<int>, timestamps: seq<int>)

  function Run(times: seq<int>): Trace {
    if |times| == 0 then Trace([], [])
    else
      var before := Run(times[..|times| - 1]);
      var now := times[|times| - 1];
      var a := IsRequestAllowed(before.timestamps, now);
      Trace(if a.allowed then before.granted + [now] else before.granted, a.timestamps)
  }

  /** The number of grants in the window of length 10 s that ends at `t`. */
  function WindowCount(granted: seq<int>, t: int): (n: nat)
    ensures n <= |granted|
  {
    if |granted| == 0 then 0
    else (if t - WindowMs < granted[0] <= t then 1 else 0) + WindowCount(granted[1..], t)
  }

  lemma {:induction false} WindowCountAppend(granted: seq<int>, x: int, t: int)
    ensures WindowCount(granted + [x], t) == WindowCount(granted, t) + (if t - WindowMs < x <= t then 1 else 0)
  {
    if |granted| > 0 {
      assert (granted + [x])[1..] == granted[1..] + [x];
      WindowCountAppend(granted[1..], x, t);
    } else {
      assert granted + [x] == [x];
    }
  }

  /** A window ending at `t` holds no more grants than are live at any
      earlier instant `now`. */
  lemma {:induction false} WindowWithinLive(granted: seq<int>, now: int, t: int)
    requires now <= t
    ensures WindowCount(granted, t) <= |LiveTimestamps(granted, now)|
  {
    if |granted| > 0 {
      WindowWithinLive(granted[1..], now, t);
    }
  }

  /** One attempt at `now` after a state that held exactly the grants live
      at an earlier instant keeps the list equal to the grants live now. */
  lemma GrantStep(before: Trace, last: int, now: int)
    requires last <= now
    requires before.timestamps == LiveTimestamps(before.granted, last)
    requires Valid(before.timestamps) && NotAfter(before.timestamps, last)
    ensures var a := IsRequestAllowed(before.timestamps, now);
      && a.timestamps == LiveTimestamps(if a.allowed then before.granted + [now] else before.granted, now)
      && Valid(a.timestamps) && NotAfter(a.timestamps, now)
  {
    var a := IsRequestAllowed(before.timestamps, now);
    NotAfterLater(before.timestamps, last, now);
    LiveTwice(before.granted, last, now);
    assert a.timestamps == LiveTimestamps(before.granted, now) + (if a.allowed then [now] else []);
    AttemptKeepsValid(before.timestamps, now);
    LiveAppend(before.granted, now, now);
  }

  /** After a run, the list holds exactly the grants still live at the
      last instant, in order. */
  lemma {:induction false} RunKeepsLiveGrants(times: seq<int>)
    requires NonDecreasing(times) && |times| > 0
    ensures Run(times).timestamps == LiveTimestamps(Run(times).granted, times[|times| - 1])
    ensures Valid(Run(times).timestamps) && NotAfter(Run(times).timestamps, times[|times| - 1])
  {
    var prefix := times[..|times| - 1];
    var now := times[|times| - 1];
    var last := now;
    if |prefix| > 0 {
      assert NonDecreasing(prefix) by {
        assert forall i :: 0 <= i < |prefix| ==> prefix[i] == times[i];
      }
      RunKeepsLiveGrants(prefix);
      last := prefix[|prefix| - 1];
      assert last == times[|times| - 2];
    }
    GrantStep(Run(prefix), last, now);
  }

  /** However the attempts are timed, no window of 10 s ever contains more
      than 300 grants. */
  lemma {:induction false} NeverMoreThanMaxInAnyWindow(times: seq<int>, t: int)
    requires NonDecreasing(times)
    ensures WindowCount(Run(times).granted, t) <= MaxRequests
  {
    if |times| > 0 {
      var prefix := times[..|times| - 1];
      var now := times[|times| - 1];
      var before := Run(prefix);
      NeverMoreThanMaxInAnyWindow(prefix, t);
      var a := IsRequestAllowed(before.timestamps, now);
      if a.allowed {
        WindowCountAppend(before.granted, now, t);
        if now <= t && |prefix| > 0 {
          RunKeepsLiveGrants(prefix);
          var last := prefix[|prefix| - 1];
          LiveTwice(before.granted, last, now);
          WindowWithinLive(before.granted, now, t);
        }
      }
    }
  }
}
