/** Option and Result shared by the client and the hook. */
module Common {

  /** A value that may be missing. */
  datatype Option<+T> = None | Some(value: T)

  /** The outcome of an asynchronous call: its value, or the message of the
      error it was rejected with. */
  datatype Result<+T> = Ok(value: T) | Err(error: string)
}
