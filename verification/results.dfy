/** Optional values and fallible results, plus the exceptions the modelled
    Java code can raise, as plain values. */
module Results {

  /** A value that may be absent; stands for a Java reference that may be null. */
  datatype Option<+T> = None | Some(value: T)

  /** The Java exception classes the modelled code throws or lets escape. */
  datatype Failure =
    | IOException          // malformed encoding, or an adapter's own I/O failure
    | IllegalArgument      // IllegalArgumentException: wrong shape or size
    | IllegalState         // IllegalStateException: non octet-aligned BIT STRING, unexpected type
    | NullPointer          // dereferencing a missing map entry
    | UnsupportedParams    // RuntimeException "Unsupported ... key params were given"
    | OutOfMemory          // OutOfMemoryError: an output too long for a Java array

  /** The outcome of a call that returns a value or throws. */
  datatype Result<+T> = Ok(value: T) | Err(error: Failure)
}
