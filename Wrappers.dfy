/** Failure-carrying results shared by the codec modules. */
module Wrappers {

  datatype Option<T> = None | Some(value: T)

  /** Why a persisted artifact could not be produced or read back. */
  datatype Error =
    | LengthOverflow   // the bit count does not fit the 4-byte prefix
    | MissingColon     // a codebook line without ':' (unpacking the split fails)
    | BadSymbol        // the text before ':' is not a quoted alphabet character

  datatype Result<T> = Success(value: T) | Failure(error: Error)
}
