/** Failure-carrying values shared by every decoder. Both datatypes are
    failure-compatible, so `:-` propagates the failure case. */
module Wrappers {

  /** A value that may be missing; `None` stands for a Python exception that
      the caller catches, or for an absent item. */
  datatype Option<+T> = None | Some(value: T) {

    predicate IsFailure() {
      None?
    }

    function PropagateFailure<U>(): Option<U>
      requires None?
    {
      None
    }

    function Extract(): T
      requires Some?
    {
      value
    }

    /** The same outcome, with `error` standing for the missing value. */
    function ToResult<E>(error: E): Result<T, E> {
      match this
      case Some(v) => Success(v)
      case None => Failure(error)
    }
  }

  /** A value or the error that the source would raise instead of returning. */
  datatype Result<+T, +E> = Success(value: T) | Failure(error: E) {

    predicate IsFailure() {
      Failure?
    }

    function PropagateFailure<U>(): Result<U, E>
      requires Failure?
    {
      Failure(error)
    }

    function Extract(): T
      requires Success?
    {
      value
    }
  }
}

/** The exceptions the decoders let escape to their callers. */
module Errors {

  datatype Error =
    | ShortRead          // `struct.unpack` or indexing on fewer octets than a header needs
    | NotAscii           // the stored digest does not decode as ASCII
    | InflateFailed      // zlib refused the compressed octets
    | Truncated          // a trailing partial record or colour triple
    | IndexOutOfRange    // a world number, pixel index or colour index past its list
    | MissingTrailer     // the single octet after a container's payload is absent
    | NoFallbackPalette  // no palette matched and none is named "Bright1"
    | NoSuchArchive      // a sprite record names an archive that was not supplied
}

/** The zlib collaborator, left uninterpreted. */
module Zlib {
  import opened Wrappers
  import opened Bytes

  /** `zlib.decompress`: the inflated octets, or `None` when it raises. */
  type Inflate = seq<byte> -> Option<seq<byte>>
}
