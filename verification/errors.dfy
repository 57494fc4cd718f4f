/** The exceptions the conversion service raises, as values. */
module Errors {

  datatype Failure =
      /** Neither rate provider produced a rate for the pair `from/to`. */
    | BothProvidersFailed(from: string, to: string)
      /** The conversion boundary re-wraps whatever went wrong underneath it. */
    | ConversionFailed(cause: Failure)
      /** A failure carried through a chain of asynchronous stages (a completion exception around `cause`). */
    | Completion(cause: Failure)
      /** There is no stored history for `subject` (a base currency or a `FROM/TO` pair). */
    | NoHistory(subject: string)
}
