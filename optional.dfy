/** Option and Result values shared by the modules of the model. */
module Optional {

  /** A value that may be absent: Go's nil pointer, or the `ok == false` half of a comma-ok pair. */
  datatype Option<+T> = None | Some(value: T)

  /** The outcome of a call that returns a value or a Go `error`, kept as its message. */
  datatype Result<+T> = Ok(value: T) | Err(message: string)
}
