/** Failure-carrying results and the error conditions of the cache-entry codec. */
module Outcomes {

  datatype Option<+T> = None | Some(value: T)

  /** Why an encode or decode call failed; each variant is one exception the codec raises or wraps. */
  datatype Error =
    | NullStorageKey                                   // IllegalStateException before encoding
    | NullCacheEntry                                   // IllegalStateException before encoding
    | ResourceTooBig(size: int)                        // IOException: body longer than Integer.MAX_VALUE
    | NegativeArraySize(size: int)                     // header length + body length wrapped below zero
    | ShortRead(expected: int, read: int)              // IOException: body stream ended early
    | MalformedMessage                                 // the message parser rejected the bytes
    | MissingHeader(name: string)                      // required pseudo-header not found
    | InvalidHeader(name: string)                      // date pseudo-header is not a decimal long
    | MismatchedVariantHeaders                         // unpaired variant-map key/value header
    | CloseFailed(reason: string)                      // a resource failed to close
    | EncodingError(cause: Error)                      // "Cache encoding error" wrapper
    | DeserializingError(cause: Error)                 // "Error deserializing cache entry" wrapper

  datatype Result<+T> = Success(value: T) | Failure(error: Error) {
    predicate IsFailure() { Failure? }
    function PropagateFailure<U>(): Result<U>
      requires Failure?
    {
      Failure(error)
    }
    function Extract(): T
      requires Success?
    {
      value
    }
  }
}
