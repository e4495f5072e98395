/** Error kinds and the result types every operation of the model returns.
    The C library reports a failure as a sentinel return value plus an errno;
    here the errno becomes the error carried by the result. */
module Results {

  /** The errno values lib/node.c sets, named for what they mean there. */
  datatype ErrorKind =
    | InvalidArgument   // EINVAL: the handle is not an "nk" block, or a negative timestamp
    | Fault             // EFAULT: an on-disk field disagrees with block bounds or validity
    | NotSupported      // ENOTSUP: unknown subkey block signature, or subkey count mismatch
    | OutOfRange        // ERANGE: a declared or discovered count exceeds its ceiling
    | NoKey             // HIVEX_NO_KEY: the hive has no valid root key

  /** The value of a successful call, or the error that ended it. */
  datatype Result<T> = Ok(value: T) | Err(error: ErrorKind)

  /** The outcome of a call that produces no value of its own (C: 0 or -1). */
  datatype Outcome = Pass | Fail(error: ErrorKind)
}
