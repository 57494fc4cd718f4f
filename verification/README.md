# Currency converter: rate decision, conversion and rate history

A Dafny model of the conversion core of a Spring currency-converter service
and of the amount filter in its browser page:

- **Rate decision.** Two providers, ExchangeRate-API and OpenExchangeRates, are each
  asked for a rate. If both answer, their mean is rounded half up to six
  places and labelled as an average. If one answers, its rate is used as it
  is, labelled with that provider. If neither answers, the request fails.
  The service writes this policy twice, in the blocking path and inside
  the asynchronous chain. Here it is one function, `RateDecision.Decide`,
  and `Conversion.SyncAndAsyncAgree` proves that both entry points reduce to it.
- **Conversion.** Identical codes short-circuit with rate 1 and the label
  `SAME_CURRENCY`. Otherwise the exact product `amount × rate` is rounded
  half up to cents, and the rate is recorded in the history only once a rate
  was obtained. A failure is re-wrapped at the conversion boundary. On the
  asynchronous path it carries one more completion wrapper.
- **Rate history.** An in-memory map from `FROM/TO` keys (upper-cased) to
  timestamped rates:
  - recording a rate prunes that pair's entries older than 24 hours;
  - an entry exactly at the cutoff is kept;
  - the history of a base currency merges all of its pairs into one row per
    distinct timestamp, in ascending time order;
  - further queries give the latest rate of a pair, the sorted distinct base
    currencies, the stored pairs, and clearing.
- **Amount filter** (`app.js`). The filter deletes everything but digits and
  points. If more than one point is left, it keeps the first and moves the
  digits after later points up behind it.

Decimal numbers are exact rationals (`real`). Half-up rounding is defined
once (`Decimal.RoundHalfUp`) and characterised independently
(`Decimal.IsHalfUpRounding`): the result is whole in units of the last
place, within half a unit of the exact value, and on an exact tie the
candidate farther from zero.

Timestamps are integers, in nanoseconds. The wall clock is read twice when
a rate is recorded: once for the entry's timestamp and once for the pruning
cutoff. The model therefore takes two clock parameters. A provider call is
reduced to how it settles: a rate, or a failure with its reason.

Modules:
- `Wrappers`: `Option` and `Result`.
- `Errors`: the exceptions as values.
- `Decimal`: rounding.
- `Text`: ASCII upper-casing, first index, and the `compareTo` order of strings.
- `Ordering`: extremes and sorting of finite sets.
- `Providers`
- `RateDecision`
- `Conversion`
- `History`
- `AmountInput`

## Model

| member | source | states |
|---|---|---|
| Decimal.RoundHalfUpIsHalfUpRounding | src/main/java/com/example/currencyconverter/service/CurrencyConversionService.java:46 | `setScale(places, HALF_UP)` as modelled meets the independent description of half-up rounding. The scaled result is a whole number, within half a unit of the scaled input, and on a tie the candidate farther from zero. |
| Decimal.HalfUpRoundingIsUnique | src/main/java/com/example/currencyconverter/service/CurrencyConversionService.java:96-97 | Any value meeting the half-up description at that scale is the rounded value, so the description determines the result completely. |
| Decimal.RoundHalfUpExact | src/main/java/com/example/currencyconverter/service/CurrencyConversionService.java:46 | A value that already has at most that many decimal places is left unchanged by rounding. |
| Providers.LookupRate | src/main/java/com/example/currencyconverter/client/ExchangeRateApiClient.java:35-39 | A client yields a rate exactly when the decoded table has the quote currency. The rate is that entry; otherwise the call fails as "currency not supported" naming the quote currency. OpenExchangeRatesClient.java lines 40-44 apply the same rule. |
| Providers.Settle | src/main/java/com/example/currencyconverter/service/CurrencyConversionService.java:76-91 | A provider's failure never escapes. The provider contributes a rate exactly when its call produced one, and that rate unchanged. |
| RateDecision.Decide | src/main/java/com/example/currencyconverter/service/CurrencyConversionService.java:94-106 | The decision fails exactly when neither provider produced a rate. The failure is "both providers failed" for that pair. |
| RateDecision.ProvenanceIdentifiesRate | src/main/java/com/example/currencyconverter/service/CurrencyConversionService.java:94-103 | The label is the average label exactly when both answered, and "ExchangeRate-API" exactly when only the first did. It is "OpenExchangeRates" exactly when only the second did, and a single provider's rate is passed through untouched. |
| RateDecision.AverageIsRoundedMean | src/main/java/com/example/currencyconverter/service/CurrencyConversionService.java:96-99 | With two rates, the result is the half-up rounding of their mean to six places, within 0.0000005 of the exact mean. It does not depend on which provider gave which rate. |
| RateDecision.SingleProviderPassesThrough | src/main/java/com/example/currencyconverter/service/CurrencyConversionService.java:100-103 | With exactly one rate, the decision is that rate with that provider's label. |
| Conversion.ConvertedAmount | src/main/java/com/example/currencyconverter/service/CurrencyConversionService.java:46 | The converted amount is the half-up rounding of `amount × rate` to two places and is within half a cent of the exact product. |
| Conversion.ConvertCurrency | src/main/java/com/example/currencyconverter/service/CurrencyConversionService.java:38-56 | Identical codes: the amount is returned with rate 1 and `SAME_CURRENCY`, and the history is untouched. Different codes: the call fails exactly when both provider calls failed, and then the history is untouched and the error is the re-wrapped "both failed". On success it reports the decided rate and label and the rounded amount, and records the rate under the pair. |
| Conversion.ConvertCurrencyAsync | src/main/java/com/example/currencyconverter/service/CurrencyConversionService.java:110-174 | Identical codes: the amount is returned with rate 1 and `SAME_CURRENCY`, and the history is untouched. Different codes: the future fails exactly when both provider calls failed. In that case the history is untouched and the error is the re-wrapped completion failure around "both failed". On success it reports the decided rate and label and the rounded amount, and records the rate under the pair. |
| Conversion.Stage | src/main/java/com/example/currencyconverter/service/CurrencyConversionService.java:143-160 | A stage of the asynchronous chain passes a success through unchanged and completes with a failure raised inside it wrapped as a completion failure. |
| Conversion.SyncAndAsyncAgree | src/main/java/com/example/currencyconverter/service/CurrencyConversionService.java:110-174 | For every input the asynchronous entry point leaves the same history as the blocking one and succeeds exactly when it does, with the same result. On failure it carries the same cause inside one more completion wrapper. |
| Conversion.ConversionRecordsLatestRate | src/main/java/com/example/currencyconverter/service/CurrencyConversionService.java:45-49 | After a successful conversion stamped no earlier than the pair's stored entries, and within the pruning window, the pair's latest rate is the rate just used. |
| Conversion.FailureReasonIsInvisible | src/main/java/com/example/currencyconverter/service/CurrencyConversionService.java:76-91 | Why a provider call failed (transport or unsupported currency) never changes the decision: any two failure reasons, on either provider, decide alike. |
| Conversion.UnsupportedEverywhereFails | src/main/java/com/example/currencyconverter/client/ExchangeRateApiClient.java:36-38 | A quote currency missing from both providers' rate tables makes the conversion fail with the re-wrapped "both failed" and leaves the history untouched. |
| Conversion.SupportedByFirstProviderOnly | src/main/java/com/example/currencyconverter/service/CurrencyConversionService.java:100-101 | A quote currency listed only by ExchangeRate-API converts at that table's rate, under that provider's label, and the rate is recorded for the pair. |
| Conversion.AveragedExample | src/main/java/com/example/currencyconverter/service/CurrencyConversionService.java:94-99 | Rates 0.90 and 0.92 for USD to EUR give the average rate 0.91, and 100 converts to 91.00. |
| History.PairKey | src/main/java/com/example/currencyconverter/service/CurrencyConversionService.java:180 | Every key the service builds for a pair contains the slash separator that the history query and the base-currency list cut at. The same key is built at line 271. |
| History.PairKeyParts | src/main/java/com/example/currencyconverter/service/CurrencyConversionService.java:180 | A pair key starts with the upper-cased base code and a slash. The text after its first slash is the upper-cased quote code, so the history query's prefix test and target extraction invert the key construction. |
| History.Prune | src/main/java/com/example/currencyconverter/service/CurrencyConversionService.java:196-209 | Pruning keeps exactly the entries not before `now − 24h`, so an entry exactly at the cutoff stays. Kept entries keep their rates. |
| History.StoreRate | src/main/java/com/example/currencyconverter/service/CurrencyConversionService.java:179-191 | Recording adds the pair's key and leaves every other pair untouched. The pair keeps exactly the new stamp and its old stamps that are within 24 hours of the pruning clock reading. The new stamp carries the new rate, overwriting an equal stamp, and old stamps keep their rates. |
| History.ReachableIsWellFormed | src/main/java/com/example/currencyconverter/service/CurrencyConversionService.java:180-185 | Every store reached from the empty store by any sequence of recordings and clearings holds only keys that contain the separator. The proof is an induction over that sequence. |
| History.RetentionIsExactlyOneDay | src/main/java/com/example/currencyconverter/service/CurrencyConversionService.java:197-202 | An entry survives a later recording of its pair exactly when it is at most 24 hours older than that recording's clock. |
| History.TargetOfKeyOf | src/main/java/com/example/currencyconverter/service/CurrencyConversionService.java:225 | The target currency taken after the first slash of the key built for a target is that target. |
| History.KeyOfTarget | src/main/java/com/example/currencyconverter/service/CurrencyConversionService.java:222-225 | A key under the base prefix is recovered from its target currency, so target columns identify keys. |
| History.ConsolidationIsUnique | src/main/java/com/example/currencyconverter/service/CurrencyConversionService.java:219-233 | Two consolidations of the same entries are equal: every entry lands in its timestamp's row under its target, and every cell comes from an entry. |
| History.RowsConsolidate | src/main/java/com/example/currencyconverter/service/CurrencyConversionService.java:219-233 | The declarative rows place every stored rate under the base in the row of its timestamp and column of its target. Every cell comes from such a rate, and no row is empty. |
| History.Consolidate | src/main/java/com/example/currencyconverter/service/CurrencyConversionService.java:221-233 | The nested `forEach` loops, visiting keys and timestamps in any order, build exactly the declarative rows. |
| History.OrderedRows | src/main/java/com/example/currencyconverter/service/CurrencyConversionService.java:245 | Copying the rows into a `TreeMap` lists each timestamp once, in strictly ascending order, with its row unchanged. |
| History.GetRateHistory | src/main/java/com/example/currencyconverter/service/CurrencyConversionService.java:215-247 | The query fails exactly when no stored pair under the upper-cased base has a rate, and the failure names the upper-cased base. On success it reports that base and the query time. |
| History.HistoryRowsAscend | src/main/java/com/example/currencyconverter/service/CurrencyConversionService.java:242-246 | Whenever the query succeeds, its rows are in strictly ascending timestamp order, and none is empty. |
| History.HistoryHasEveryRate | src/main/java/com/example/currencyconverter/service/CurrencyConversionService.java:229-231 | Whenever the query succeeds, every rate stored under the base appears in the row of its own timestamp, under its target currency. |
| History.HistoryHasOnlyStoredRates | src/main/java/com/example/currencyconverter/service/CurrencyConversionService.java:222-231 | Whenever the query succeeds, every cell of the history is the rate stored for that target at that row's timestamp. |
| History.RecordedRateIsInHistory | src/main/java/com/example/currencyconverter/service/CurrencyConversionService.java:215-233 | A rate recorded within the pruning window makes its base's history succeed. The rate shows up in the row of its stamp under the upper-cased quote code. |
| History.LatestRate | src/main/java/com/example/currencyconverter/service/CurrencyConversionService.java:270-284 | The lookup fails exactly when the pair is absent or has no entries, and the failure names the pair key. Otherwise it returns the rate at a timestamp no earlier than any other of the pair. |
| History.RecordedRateIsLatest | src/main/java/com/example/currencyconverter/service/CurrencyConversionService.java:279-283 | A rate recorded at a stamp no earlier than the pair's others, and within the pruning window, is the pair's latest rate. |
| History.BaseCurrencies | src/main/java/com/example/currencyconverter/service/CurrencyConversionService.java:259-265 | The list is in strictly ascending string order with no repeats. A code is listed exactly when it is the part before the first slash of some stored key. |
| History.CurrencyPairs | src/main/java/com/example/currencyconverter/service/CurrencyConversionService.java:252-254 | Every stored key is listed exactly once and nothing else. |
| History.Clear | src/main/java/com/example/currencyconverter/service/CurrencyConversionService.java:289-292 | Nothing is stored afterwards. |
| History.ClearForgetsEverything | src/main/java/com/example/currencyconverter/service/CurrencyConversionService.java:289-292 | After clearing, the history query and the latest-rate lookup fail with "no history", and the base-currency list is empty. |
| Ordering.MaxOf | src/main/java/com/example/currencyconverter/service/CurrencyConversionService.java:279-281 | The maximum of a non-empty set of timestamps belongs to it and bounds every element. |
| Ordering.SortStrings | src/main/java/com/example/currencyconverter/service/CurrencyConversionService.java:262-263 | The sorted codes are strictly ascending in `compareTo` order, with the same members and the same count as the set. |
| Text.LessTotal | src/main/java/com/example/currencyconverter/service/CurrencyConversionService.java:263 | Any two distinct strings are ordered one way or the other by `compareTo`. |
| Text.LessTransitive | src/main/java/com/example/currencyconverter/service/CurrencyConversionService.java:263 | The `compareTo` order of strings is transitive. |
| Text.IndexOf | src/main/java/com/example/currencyconverter/service/CurrencyConversionService.java:225 | `indexOf` is −1 exactly when the character is absent. Otherwise it is the position of the character's first occurrence. |
| AmountInput.KeepAllowedKeepsDigits | src/main/resources/static/js/app.js:90 | After the regular-expression filter, removing the points leaves exactly the input's digits, in order. |
| AmountInput.SplitPieces | src/main/resources/static/js/app.js:93 | `split('.')` gives one more piece than there are points, and no piece contains a point. |
| AmountInput.JoinSplit | src/main/resources/static/js/app.js:93 | Joining the pieces of `split('.')` with points gives back the text. |
| AmountInput.ConcatSplit | src/main/resources/static/js/app.js:95 | Joining the pieces with no separator gives the text with its points removed. |
| AmountInput.SanitizeKeepsSinglePoint | src/main/resources/static/js/app.js:93-94 | When the filtered text has at most one point, the handler's result is the filtered text. |
| AmountInput.SanitizeLeavesCleanText | src/main/resources/static/js/app.js:86-98 | Text of digits with at most one point is left exactly as typed. |
| AmountInput.SanitizeMergesLaterPoints | src/main/resources/static/js/app.js:94-96 | With two or more points, the result is the text before the first point, then one point, then the digits after it. |
| AmountInput.Sanitize | src/main/resources/static/js/app.js:86-99 | The handler's result holds only digits and points, and at most one point. Deleting that point leaves exactly the input's digits, in their order. |
| AmountInput.SanitizeIdempotent | src/main/resources/static/js/app.js:86-99 | Running the handler on its own output changes nothing. |

## Left out

- HTTP transport of the two clients: requests, the 10-second timeouts, status codes and body decoding. Each of these only decides whether a provider call yields a rate, and that outcome is a parameter (`Providers.Fetch`).
- Concurrency: the parallel provider calls, `CompletableFuture` joins and the concurrent maps. The history is a value, and each call is one atomic step.
- `@Cacheable` on the rate lookup. The lookup is only called from within the same class, and the asynchronous path does not call it, so no caching takes effect. The model has no cache.
- Pruning on read. History is pruned only when a rate is recorded for that pair. Queries do not prune, and the model follows that.
- Logging.
- The response timestamp of a conversion and the `createResponse` wrapper. The history's query time is a parameter.
- Controllers, DTOs and request validation.
- The rest of `app.js`: form handling, swapping and keyboard shortcuts.
- `BigDecimal` scale and precision. Only numeric values are modelled, so `91.0` and `91.00` are the same value here.
- Exact exception message text. Errors are a datatype that keeps the structure: the failing pair, the re-wrap at the boundary, and the extra completion wrapper on the asynchronous path.
- `Text.Upper`: upper-cases ASCII letters only, whereas `toUpperCase()` follows full, locale-sensitive Unicode case mapping.
- `Text.Less`: compares characters by code unit value. That matches `compareTo` on UTF-16 code units for text that stays in the Basic Multilingual Plane.
- `History.BaseCurrencies`: requires every key to contain a slash. Java would throw on a key without one, but `History.ReachableIsWellFormed` shows that no store reached from empty by recordings and clearings holds such a key.
- `History.CurrencyPairs`: lists keys in an unspecified order, like `ConcurrentHashMap`'s key set. The contract fixes membership and uniqueness, not the order.
- The unreachable `orElseThrow` branch of the latest-rate lookup. Its guard already excludes an empty series.
- `History.PairKeyParts` and `History.RecordedRateIsInHistory`: require the base code to contain no slash. If it does, the service's target extraction cuts the key at the base's own slash, and the recorded rate appears under a different target name.
