/**
  One conversion request: the same-currency short cut, the rate decision,
  the rounded converted amount and the history record, for the blocking
  entry point and for the asynchronous one.
 */
module Conversion {
  import opened Wrappers
  import opened Errors
  import opened Decimal
  import opened Providers
  import opened RateDecision
  import History

  const SameCurrency := "SAME_CURRENCY"

  /** Places kept by a converted amount. */
  const AmountPlaces: nat := 2

  /** What a conversion reports (its response timestamp is not modelled). */
  datatype Converted = Converted(amount: real, from: string, to: string, rate: real, converted: real, provider: string)

  /** The answer to one call and the history it leaves behind. */
  datatype Step = Step(result: Result<Converted, Failure>, history: History.Store)

  /** How the two provider calls of one conversion settle. */
  datatype Quotes = Quotes(exchangeRateApi: Fetch, openExchangeRates: Fetch)

  /** The two wall-clock readings taken when a rate is recorded: the entry's timestamp and the pruning cutoff's base. */
  datatype Clock = Clock(stamp: int, prune: int)

  /** The rate decision for the settled provider calls. */
  function DecideQuotes(from: string, to: string, quotes: Quotes): Result<RateResponse, Failure> {
    Decide(from, to, Settle(quotes.exchangeRateApi), Settle(quotes.openExchangeRates))
  }

  /** The reply for two identical codes; no provider is asked and nothing is recorded. */
  function SameCurrencyReply(amount: real, code: string): Converted {
    Converted(amount, code, code, 1.0, amount, SameCurrency)
  }

  /** The converted amount: the exact product rounded half up to cents. */
  function ConvertedAmount(amount: real, rate: real): (r: real)
    ensures IsHalfUpRounding(amount * rate, AmountPlaces, r)
    ensures -0.005 <= r - amount * rate <= 0.005
  {
    var product := amount * rate;
    RoundHalfUpIsHalfUpRounding(product, AmountPlaces);
    assert Pow10(AmountPlaces) == 100;
    RoundHalfUp(product, AmountPlaces)
  }

  /** Apply a decided rate: convert the amount and record the rate. */
  function Apply(h: History.Store, amount: real, from: string, to: string, d: RateResponse, clock: Clock): Step {
    Step(
      Success(Converted(amount, from, to, d.rate, ConvertedAmount(amount, d.rate), d.provider)),
      History.StoreRate(h, from, to, d.rate, clock.stamp, clock.prune))
  }

  /** The blocking conversion: both providers are asked, the decision is applied, any failure is re-wrapped. */
  function ConvertCurrency(h: History.Store, amount: real, from: string, to: string, quotes: Quotes, clock: Clock): (s: Step)
    ensures from == to ==> s == Step(Success(SameCurrencyReply(amount, from)), h)
    ensures from != to ==>
      (s.result.Failure? <==> quotes.exchangeRateApi.FetchFailed? && quotes.openExchangeRates.FetchFailed?)
    ensures s.result.Failure? ==>
      s.history == h && s.result.error == ConversionFailed(BothProvidersFailed(from, to))
    ensures from != to && s.result.Success? ==>
      var c := s.result.value;
      && c.amount == amount && c.from == from && c.to == to
      && DecideQuotes(from, to, quotes) == Success(RateResponse(c.rate, c.provider))
      && c.converted == ConvertedAmount(amount, c.rate)
      && s.history == History.StoreRate(h, from, to, c.rate, clock.stamp, clock.prune)
  {
    if from == to then
      Step(Success(SameCurrencyReply(amount, from)), h)
    else
      match DecideQuotes(from, to, quotes)
      case Failure(e) => Step(Failure(ConversionFailed(e)), h)
      case Success(d) => Apply(h, amount, from, to, d, clock)
  }

  /**
    A stage of an asynchronous chain: a failure raised inside the stage
    completes the chain with that failure wrapped as a completion failure.
   */
  function Stage<T>(r: Result<T, Failure>): (s: Result<T, Failure>)
    ensures s.Success? <==> r.Success?
    ensures s.Success? ==> s.value == r.value
    ensures s.Failure? ==> s.error == Completion(r.error)
  {
    match r
    case Success(v) => Success(v)
    case Failure(e) => Failure(Completion(e))
  }

  /**
    The asynchronous conversion: the two provider calls are joined, the
    decision runs as one stage, applying it as the next, and the final
    handler re-wraps whatever failure reached it.
   */
  function ConvertCurrencyAsync(h: History.Store, amount: real, from: string, to: string, quotes: Quotes, clock: Clock): (s: Step)
    ensures from == to ==> s == Step(Success(SameCurrencyReply(amount, from)), h)
    ensures from != to ==>
      (s.result.Failure? <==> quotes.exchangeRateApi.FetchFailed? && quotes.openExchangeRates.FetchFailed?)
    ensures s.result.Failure? ==>
      s.history == h && s.result.error == ConversionFailed(Completion(BothProvidersFailed(from, to)))
    ensures from != to && s.result.Success? ==>
      var c := s.result.value;
      && c.amount == amount && c.from == from && c.to == to
      && DecideQuotes(from, to, quotes) == Success(RateResponse(c.rate, c.provider))
      && c.converted == ConvertedAmount(amount, c.rate)
      && s.history == History.StoreRate(h, from, to, c.rate, clock.stamp, clock.prune)
  {
    if from == to then
      Step(Success(SameCurrencyReply(amount, from)), h)
    else
      match Stage(DecideQuotes(from, to, quotes))
      case Failure(e) => Step(Failure(ConversionFailed(e)), h)
      case Success(d) => Apply(h, amount, from, to, d, clock)
  }

  /**
    The two entry points agree: same converted amount, rate and provider,
    same history, and they fail together; the asynchronous failure only
    carries one more completion wrapper around the same cause.
   */
  lemma SyncAndAsyncAgree(h: History.Store, amount: real, from: string, to: string, quotes: Quotes, clock: Clock)
    ensures var s := ConvertCurrency(h, amount, from, to, quotes, clock);
      var a := ConvertCurrencyAsync(h, amount, from, to, quotes, clock);
      && a.history == s.history
      && (a.result.Success? <==> s.result.Success?)
      && (s.result.Success? ==> a.result == s.result)
      && (s.result.Failure? ==> a.result.error == ConversionFailed(Completion(s.result.error.cause)))
  {
  }

  /**
    After a successful conversion between different codes, with the entry
    stamped no earlier than anything else for the pair and within the
    pruning window, the pair's latest rate is the rate just used.
   */
  lemma ConversionRecordsLatestRate(h: History.Store, amount: real, from: string, to: string, quotes: Quotes, clock: Clock)
    requires from != to
    requires ConvertCurrency(h, amount, from, to, quotes, clock).result.Success?
    requires History.PairKey(from, to) in h ==> forall t :: t in h[History.PairKey(from, to)] ==> t <= clock.stamp
    requires clock.prune - History.Retention <= clock.stamp
    ensures var s := ConvertCurrency(h, amount, from, to, quotes, clock);
      History.LatestRate(s.history, from, to) == Success(s.result.value.rate)
  {
    var s := ConvertCurrency(h, amount, from, to, quotes, clock);
    History.RecordedRateIsLatest(h, from, to, s.result.value.rate, clock.stamp, clock.prune);
  }

  /** Why a provider call failed never matters to the decision: any two failure reasons decide alike. */
  lemma FailureReasonIsInvisible(from: string, to: string, r1: FetchFailure, r2: FetchFailure, other: Fetch)
    ensures DecideQuotes(from, to, Quotes(FetchFailed(r1), other)) == DecideQuotes(from, to, Quotes(FetchFailed(r2), other))
    ensures DecideQuotes(from, to, Quotes(other, FetchFailed(r1))) == DecideQuotes(from, to, Quotes(other, FetchFailed(r2)))
  {
  }

  /** A quote currency missing from both providers' tables makes the conversion fail and records nothing. */
  lemma UnsupportedEverywhereFails(h: History.Store, amount: real, from: string, to: string,
                                   t1: map<string, real>, t2: map<string, real>, clock: Clock)
    requires from != to
    requires to !in t1 && to !in t2
    ensures ConvertCurrency(h, amount, from, to, Quotes(LookupRate(t1, to), LookupRate(t2, to)), clock)
      == Step(Failure(ConversionFailed(BothProvidersFailed(from, to))), h)
  {
  }

  /**
    A quote currency only the first provider lists converts at that
    provider's rate, under its label, and records that rate.
   */
  lemma SupportedByFirstProviderOnly(h: History.Store, amount: real, from: string, to: string,
                                     t1: map<string, real>, t2: map<string, real>, clock: Clock)
    requires from != to
    requires to in t1 && to !in t2
    ensures var s := ConvertCurrency(h, amount, from, to, Quotes(LookupRate(t1, to), LookupRate(t2, to)), clock);
      && s.result == Success(Converted(amount, from, to, t1[to], ConvertedAmount(amount, t1[to]), ExchangeRateApi))
      && s.history == History.StoreRate(h, from, to, t1[to], clock.stamp, clock.prune)
  {
  }

  /** Both providers answer 0.90 and 0.92 for USD to EUR: the rate is 0.91 and 100.00 converts to 91.00. */
  lemma AveragedExample(h: History.Store, clock: Clock)
    ensures ConvertCurrency(h, 100.0, "USD", "EUR", Quotes(Fetched(0.90), Fetched(0.92)), clock).result
      == Success(Converted(100.0, "USD", "EUR", 0.91, 91.0, AverageLabel))
  {
    assert Pow10(AveragePlaces) == 1000000;
    assert Pow10(AmountPlaces) == 100;
    assert RoundUnits(0.91 * 1000000.0) == 910000;
    assert RoundHalfUp(0.91, AveragePlaces) == 0.91;
    assert RoundUnits(91.0 * 100.0) == 9100;
    assert RoundHalfUp(91.0, AmountPlaces) == 91.0;
  }
}
