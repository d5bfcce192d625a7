/** The overall status light: a traffic-light reading of the success
    rate and the error list of the latest snapshot. */
module StatusIndicator {

  import opened Wrappers

  datatype Status = Loading | Healthy | Warning | Error {
    function Label(): string {
      match this
      case Loading => "Loading..."
      case Healthy => "Healthy"
      case Warning => "Warning"
      case Error => "Error"
    }

    function Color(): string {
      match this
      case Loading => "grey"
      case Healthy => "#4CAF50"
      case Warning => "#FFC107"
      case Error => "#F44336"
    }
  }

  /** The number of error messages; an absent list counts as none. */
  function ErrorCount(errorMessages: Option<seq<string>>): (n: nat)
    ensures errorMessages.None? ==> n == 0
    ensures errorMessages.Some? ==> n == |errorMessages.value|
  {
    if errorMessages.Some? then |errorMessages.value| else 0
  }

  const HealthyThreshold: real := 0.98
  const WarningThreshold: real := 0.90

  /** The component's classification as written: it reads the rate as a
      fraction between 0 and 1. */
  function Classify(successRate: Option<real>, errorMessages: Option<seq<string>>): (s: Status)
    ensures s == Loading <==> successRate.None? && ErrorCount(errorMessages) == 0
    ensures s == Healthy <==>
              successRate.Some? && successRate.value >= HealthyThreshold && ErrorCount(errorMessages) == 0
    ensures s == Warning <==>
              successRate.Some? && successRate.value >= WarningThreshold
              && !(successRate.value >= HealthyThreshold && ErrorCount(errorMessages) == 0)
    ensures s == Error <==>
              (successRate.None? && ErrorCount(errorMessages) > 0)
              || (successRate.Some? && successRate.value < WarningThreshold)
  {
    var errorCount := ErrorCount(errorMessages);
    if successRate.Some? then
      if successRate.value >= HealthyThreshold && errorCount == 0 then Healthy
      else if successRate.value >= WarningThreshold then Warning
      else Error
    else if errorCount > 0 then Error
    else Loading
  }

  /** The snapshot delivers the success rate as a percentage, so as
      written a rate of 50.0 with an error on record reads as a warning,
      and any rate of at least 0.98 percent without errors as healthy. */
  lemma PercentageReadAsFraction()
    ensures Classify(Some(50.0), Some(["[eth_blockNumber]: boom"])) == Warning
    ensures Classify(Some(1.0), Some([])) == Healthy
  {
  }

  const HealthyPercent: real := 98.0
  const WarningPercent: real := 90.0

  /** The classification on the scale the snapshot uses: the same
      thresholds, read as percentages. */
  function ClassifyPercent(successRate: Option<real>, errorMessages: Option<seq<string>>): (s: Status)
    ensures s == Healthy <==>
              successRate.Some? && successRate.value >= HealthyPercent && ErrorCount(errorMessages) == 0
    ensures successRate.Some? && successRate.value < WarningPercent ==> s == Error
    ensures s == Warning ==> successRate.Some? && WarningPercent <= successRate.value
  {
    var errorCount := ErrorCount(errorMessages);
    if successRate.Some? then
      if successRate.value >= HealthyPercent && errorCount == 0 then Healthy
      else if successRate.value >= WarningPercent then Warning
      else Error
    else if errorCount > 0 then Error
    else Loading
  }

  /** The percentage classification is the written one applied to the
      rate divided by 100, so it keeps every other decision of the
      component unchanged. */
  lemma PercentIsScaledFraction(successRate: Option<real>, errorMessages: Option<seq<string>>)
    ensures ClassifyPercent(successRate, errorMessages) ==
              Classify(if successRate.Some? then Some(successRate.value / 100.0) else None, errorMessages)
  {
  }

  /** On the percentage scale a 50.0 rate with an error is an error, and
      healthy needs at least 98 percent. */
  lemma PercentScaleExamples()
    ensures ClassifyPercent(Some(50.0), Some(["[eth_blockNumber]: boom"])) == Error
    ensures ClassifyPercent(Some(1.0), Some([])) == Error
    ensures ClassifyPercent(Some(100.0), Some([])) == Healthy
  {
  }

  /** Whatever the scale, a status light never shows healthy while errors
      are on record. */
  lemma NeverHealthyWithErrors(successRate: Option<real>, errorMessages: Option<seq<string>>)
    requires ErrorCount(errorMessages) > 0
    ensures Classify(successRate, errorMessages) != Healthy
    ensures ClassifyPercent(successRate, errorMessages) != Healthy
  {
  }
}
