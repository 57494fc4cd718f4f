/**
  The fallback/averaging policy applied once both provider calls have
  settled. The service states it twice, once for the blocking path and once
  inside the asynchronous chain; both are this one function.
 */
module RateDecision {
  import opened Wrappers
  import opened Errors
  import opened Decimal

  const ExchangeRateApi := "ExchangeRate-API"
  const OpenExchangeRates := "OpenExchangeRates"
  const AverageLabel := "Average (ExchangeRate-API + OpenExchangeRates)"

  /** Places kept by the average of two rates. */
  const AveragePlaces: nat := 6

  /** The rate chosen for a pair and the provenance label reported with it. */
  datatype RateResponse = RateResponse(rate: real, provider: string)

  /**
    Both rates: their mean, rounded half up to six places, labelled as an
    average. One rate: that rate untouched, labelled with its provider.
    No rate: the call fails.
   */
  function Decide(from: string, to: string, primary: Option<real>, secondary: Option<real>)
    : (r: Result<RateResponse, Failure>)
    ensures r.Failure? <==> primary.None? && secondary.None?
    ensures r.Failure? ==> r.error == BothProvidersFailed(from, to)
  {
    if primary.Some? && secondary.Some? then
      Success(RateResponse(RoundHalfUp((primary.value + secondary.value) / 2.0, AveragePlaces), AverageLabel))
    else if primary.Some? then
      Success(RateResponse(primary.value, ExchangeRateApi))
    else if secondary.Some? then
      Success(RateResponse(secondary.value, OpenExchangeRates))
    else
      Failure(BothProvidersFailed(from, to))
  }

  /**
    The label alone says which providers contributed and how the rate was
    obtained from them.
   */
  lemma ProvenanceIdentifiesRate(from: string, to: string, primary: Option<real>, secondary: Option<real>)
    requires Decide(from, to, primary, secondary).Success?
    ensures var d := Decide(from, to, primary, secondary).value;
      && (d.provider == AverageLabel <==> primary.Some? && secondary.Some?)
      && (d.provider == ExchangeRateApi <==> primary.Some? && secondary.None?)
      && (d.provider == OpenExchangeRates <==> primary.None? && secondary.Some?)
      && (d.provider == ExchangeRateApi ==> d.rate == primary.value)
      && (d.provider == OpenExchangeRates ==> d.rate == secondary.value)
  {
  }

  /**
    The averaged rate is within half a millionth of the exact mean, meets the
    half-up description, and does not depend on which provider gave which rate.
   */
  lemma AverageIsRoundedMean(from: string, to: string, a: real, b: real)
    ensures var d := Decide(from, to, Some(a), Some(b));
      && d.Success?
      && d.value.provider == AverageLabel
      && IsHalfUpRounding((a + b) / 2.0, AveragePlaces, d.value.rate)
      && -0.0000005 <= d.value.rate - (a + b) / 2.0 <= 0.0000005
      && d == Decide(from, to, Some(b), Some(a))
  {
    var mean := (a + b) / 2.0;
    RoundHalfUpIsHalfUpRounding(mean, AveragePlaces);
    assert Pow10(AveragePlaces) == 1000000;
    assert (b + a) / 2.0 == mean;
  }

  /** With exactly one rate, that rate passes through unchanged under its provider's label. */
  lemma SingleProviderPassesThrough(from: string, to: string, a: real)
    ensures Decide(from, to, Some(a), None) == Success(RateResponse(a, ExchangeRateApi))
    ensures Decide(from, to, None, Some(a)) == Success(RateResponse(a, OpenExchangeRates))
  {
  }
}
