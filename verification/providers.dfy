/**
  The two rate providers, seen from the service. A provider call is an HTTP
  request whose transport is not modelled; what remains is how one call
  settles and the single rule each client applies to the decoded body.
 */
module Providers {
  import opened Wrappers

  /** Why one provider call produced no rate. */
  datatype FetchFailure =
      /** Network error, timeout, non-2xx status or an undecodable body. */
    | Transport
      /** The decoded rates table has no entry for the quote currency. */
    | Unsupported(currency: string)

  /** How one provider call settles. */
  datatype Fetch = Fetched(rate: real) | FetchFailed(reason: FetchFailure)

  /**
    The clients' mapping step: look the quote currency up in the decoded
    table of rates; a missing entry fails the call.
   */
  function LookupRate(rates: map<string, real>, to: string): (f: Fetch)
    ensures f.Fetched? <==> to in rates
    ensures f.Fetched? ==> f.rate == rates[to]
    ensures f.FetchFailed? ==> f.reason == Unsupported(to)
  {
    if to in rates then Fetched(rates[to]) else FetchFailed(Unsupported(to))
  }

  /**
    The service never lets one provider's failure escape: the synchronous
    path catches it around `block()`, the asynchronous path maps it to
    `null` in `handle`. Either way a failed call leaves no rate.
   */
  function Settle(f: Fetch): (r: Option<real>)
    ensures r.Some? <==> f.Fetched?
    ensures r.Some? ==> r.value == f.rate
  {
    match f
    case Fetched(rate) => Some(rate)
    case FetchFailed(_) => None
  }
}
