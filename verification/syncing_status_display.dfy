/** The syncing status panel: a status line and, when the block numbers
    allow it, a progress bar. The hexadecimal block numbers arrive
    already parsed; `None` stands for a number that did not parse. */
module SyncingStatusDisplay {

  import opened Wrappers
  import Decimal

  /** What the panel is given: `null` (or nothing), `false`, or the
      three parsed block numbers of a sync in progress. */
  datatype SyncInput =
    | NoStatus
    | NotSyncing
    | Progress(current: Option<int>, highest: Option<int>, starting: Option<int>)

  datatype Panel =
    | NotAvailable
    | Synced
    | Syncing(message: string, percentage: Option<real>)

  function Min(a: int, b: int): int {
    if a <= b then a else b
  }

  function BlockText(b: Option<int>): string {
    if b.Some? then Decimal.IntToString(b.value) else "N/A"
  }

  /** `Syncing (Block: current / highest)`. */
  function BaseMessage(current: Option<int>, highest: Option<int>): string {
    "Syncing (Block: " + BlockText(current) + " / " + BlockText(highest) + ")"
  }

  /** The status line: the base message, followed by ` from N` exactly
      when the starting block parsed. */
  function ProgressMessage(current: Option<int>, highest: Option<int>, starting: Option<int>): (m: string)
    ensures |m| >= |BaseMessage(current, highest)|
    ensures m[..|BaseMessage(current, highest)|] == BaseMessage(current, highest)
    ensures starting.Some? <==> |m| > |BaseMessage(current, highest)|
    ensures starting.Some? ==> m[|BaseMessage(current, highest)|..] == " from " + Decimal.IntToString(starting.value)
  {
    var base := BaseMessage(current, highest);
    if starting.Some? then
      var m := base + " from " + Decimal.IntToString(starting.value);
      assert m[..|base|] == base;
      m
    else base
  }

  /** Whether a progress bar is drawn: current and highest parsed, highest
      positive, and current at least the starting block (a starting block
      that did not parse makes that comparison false). */
  predicate ShowsBar(current: Option<int>, highest: Option<int>, starting: Option<int>) {
    current.Some? && highest.Some? && highest.value > 0 && starting.Some? && current.value >= starting.value
  }

  /** The bar's percentage, for block numbers that show a bar. */
  function Percentage(current: int, highest: int, starting: int): (p: real)
    requires highest > 0 && current >= starting
    ensures 0.0 <= p <= 100.0
  {
    var effective := Min(current, highest);
    var total := highest - starting;
    var synced := effective - starting;
    if total > 0 && synced >= 0 then
      var ratio := (synced as real / total as real) * 100.0;
      var upper := if 0.0 >= ratio then 0.0 else ratio;
      if 100.0 <= upper then 100.0 else upper
    else if effective >= highest then 100.0
    else 0.0
  }

  /** What the panel shows for a status. */
  function Render(status: SyncInput): (p: Panel)
    ensures status.NoStatus? <==> p.NotAvailable?
    ensures status.NotSyncing? <==> p.Synced?
    ensures p.Syncing? ==>
              p.message == ProgressMessage(status.current, status.highest, status.starting)
              && (p.percentage.Some? <==> ShowsBar(status.current, status.highest, status.starting))
              && (p.percentage.Some? ==> 0.0 <= p.percentage.value <= 100.0)
    ensures p.Syncing? && p.percentage.Some? ==>
              status.Progress? && ShowsBar(status.current, status.highest, status.starting)
              && p.percentage.value == Percentage(status.current.value, status.highest.value, status.starting.value)
  {
    match status
    case NoStatus => NotAvailable
    case NotSyncing => Synced
    case Progress(current, highest, starting) =>
      var message := ProgressMessage(current, highest, starting);
      if ShowsBar(current, highest, starting) then
        Syncing(message, Some(Percentage(current.value, highest.value, starting.value)))
      else Syncing(message, None)
  }

  /** When the highest block is not above the starting block, the bar is
      always full: the fallback of 0 can never be chosen. */
  lemma DegenerateRangeIsComplete(current: int, highest: int, starting: int)
    requires highest > 0 && current >= starting
    requires highest - starting <= 0
    ensures Percentage(current, highest, starting) == 100.0
  {
  }

  /** When the highest block is above the starting block, neither clamp
      ever acts: the percentage is exactly the share of the range covered
      by the current block, capped at the highest. */
  lemma ProperRangeIsExactRatio(current: int, highest: int, starting: int)
    requires highest > 0 && current >= starting
    requires highest - starting > 0
    ensures Percentage(current, highest, starting) ==
              ((Min(current, highest) - starting) as real / (highest - starting) as real) * 100.0
  {
    var synced := (Min(current, highest) - starting) as real;
    var total := (highest - starting) as real;
    assert 0.0 <= synced <= total;
    assert synced / total <= 1.0;
    assert 0.0 <= synced / total;
  }

  /** A node at or past the highest block shows a full bar, and one still
      at its starting block an empty one. */
  lemma BarEnds(highest: int, starting: int)
    requires highest > 0 && highest > starting
    ensures Percentage(highest, highest, starting) == 100.0
    ensures Percentage(highest + 1, highest, starting) == 100.0
    ensures Percentage(starting, highest, starting) == 0.0
  {
    ProperRangeIsExactRatio(highest, highest, starting);
    ProperRangeIsExactRatio(highest + 1, highest, starting);
    ProperRangeIsExactRatio(starting, highest, starting);
  }
}
