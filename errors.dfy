/** Status codes returned by the webauth library (the WA_ERR_* values) and the
    result wrappers the model uses in place of C's "negative int means error". */
module Errors {

  /** The error codes the modelled functions can return. */
  datatype Status = NoRoom | Corrupt | NoMem | BadKey | BadHmac

  /** A value, or the error code the C function would have returned instead. */
  datatype Result<+T> = Ok(value: T) | Err(error: Status)

  /** A C pointer that may be NULL. */
  datatype Option<+T> = None | Some(value: T)

  /** Bytes as the C code sees them (`unsigned char`). */
  type byte = b: int | 0 <= b < 256
}
