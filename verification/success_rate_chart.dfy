/** The success-rate chart's history: a bounded list of points, each
    stamped with a running counter, extended whenever the effect sees a
    new non-null rate. */
module SuccessRateChart {

  import opened Wrappers

  const MaxDataPoints: nat := 30

  datatype Point = Point(time: int, rate: real)

  /** The component's state: the history, the counter, and the rate the
      effect last ran for (`None` before the first render). */
  datatype Chart = Chart(history: seq<Point>, counter: int, lastRate: Option<Option<real>>)

  const InitialChart := Chart([], 0, None)

  /** The last `MaxDataPoints` points, in order. */
  function Trim(h: seq<Point>): (r: seq<Point>)
    ensures |r| <= MaxDataPoints
    ensures |h| <= MaxDataPoints ==> r == h
    ensures |h| > MaxDataPoints ==> |r| == MaxDataPoints
    ensures forall i :: 0 <= i < |r| ==> r[i] == h[|h| - |r| + i]
  {
    if |h| > MaxDataPoints then h[|h| - MaxDataPoints..] else h
  }

  /** The effect body: a null rate changes nothing; otherwise the point
      `{time: counter, rate}` is appended, the history is cut back to the
      newest 30 points, and the counter moves on by one. */
  function Record(c: Chart, currentSuccessRate: Option<real>): (r: Chart)
    ensures currentSuccessRate.None? ==> r.history == c.history && r.counter == c.counter
    ensures currentSuccessRate.Some? ==>
              r.counter == c.counter + 1
              && r.history == Trim(c.history + [Point(c.counter, currentSuccessRate.value)])
              && r.history[|r.history| - 1] == Point(c.counter, currentSuccessRate.value)
  {
    if currentSuccessRate.Some? then
      var updated := c.history + [Point(c.counter, currentSuccessRate.value)];
      c.(history := Trim(updated), counter := c.counter + 1)
    else c
  }

  /** One render with the given rate: the effect runs on the first render
      and whenever the rate differs from the one it last ran for. */
  function Render(c: Chart, currentSuccessRate: Option<real>): (r: Chart)
    ensures r.lastRate == Some(currentSuccessRate)
    ensures c.lastRate == Some(currentSuccessRate) ==> r == c
    ensures c.lastRate != Some(currentSuccessRate) ==>
              r.history == Record(c, currentSuccessRate).history && r.counter == Record(c, currentSuccessRate).counter
    ensures c.lastRate != Some(currentSuccessRate) && currentSuccessRate.Some? ==>
              r.counter == c.counter + 1 && |r.history| > 0
              && r.history[|r.history| - 1] == Point(c.counter, currentSuccessRate.value)
  {
    if c.lastRate == Some(currentSuccessRate) then c
    else Record(c, currentSuccessRate).(lastRate := Some(currentSuccessRate))
  }

  /** The history holds at most 30 points, and their times are the
      consecutive counter values just below the counter. */
  predicate Consistent(c: Chart) {
    |c.history| <= MaxDataPoints
    && forall i :: 0 <= i < |c.history| ==> c.history[i].time == c.counter - |c.history| + i
  }

  lemma InitialConsistent()
    ensures Consistent(InitialChart)
  {
  }

  /** Every render keeps the history bounded and its times consecutive. */
  lemma RenderKeepsConsistent(c: Chart, currentSuccessRate: Option<real>)
    requires Consistent(c)
    ensures Consistent(Render(c, currentSuccessRate))
  {
    if c.lastRate != Some(currentSuccessRate) && currentSuccessRate.Some? {
      var updated := c.history + [Point(c.counter, currentSuccessRate.value)];
      assert forall i :: 0 <= i < |updated| ==> updated[i].time == c.counter + 1 - |updated| + i;
    }
  }

  /** In a consistent history, times strictly increase. */
  lemma TimesStrictlyIncrease(c: Chart, i: int, j: int)
    requires Consistent(c) && 0 <= i < j < |c.history|
    ensures c.history[i].time < c.history[j].time
  {
  }

  function RenderAll(c: Chart, rates: seq<Option<real>>): Chart
    decreases |rates|
  {
    if |rates| == 0 then c else RenderAll(Render(c, rates[0]), rates[1..])
  }

  /** Across any sequence of renders from the mounted-empty state, the
      history never exceeds 30 points and its times strictly increase. */
  lemma {:induction false} RenderAllKeepsConsistent(c: Chart, rates: seq<Option<real>>)
    requires Consistent(c)
    ensures Consistent(RenderAll(c, rates))
    ensures |RenderAll(c, rates).history| <= MaxDataPoints
    decreases |rates|
  {
    if |rates| > 0 {
      RenderKeepsConsistent(c, rates[0]);
      RenderAllKeepsConsistent(Render(c, rates[0]), rates[1..]);
    }
  }

  /** A full history gives up its oldest point for the new one. */
  lemma FullHistoryDropsOldest(c: Chart, rate: real)
    requires Consistent(c) && |c.history| == MaxDataPoints
    ensures Record(c, Some(rate)).history == c.history[1..] + [Point(c.counter, rate)]
  {
  }
}
