/** Optional values, results and the error kinds the modelled code raises. */
module Outcomes {

  /** Python's `None` or a present value. */
  datatype Option<+T> = None | Some(value: T)

  /** The `ValueError`s raised by the modelled functions, one constructor per message. */
  datatype Error =
    | UnexpectedExtension      // "Unexpected extension."
    | ZeroLengthUorf           // "Cannot calculate GC content from a 0 nt uORF."
    | UorfNotInFiveUtr         // "The uORF is not in the given 5'UTR region."
    | ZeroLengthRegion         // "Cannot calculate GC content from a 0 nt region."
    | UnknownStrand(value: string)  // "Unknown strand value {val}"

  /** A returned value, or the error that was raised instead. */
  datatype Result<+T> = Success(value: T) | Failure(error: Error)
}
