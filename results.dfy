// Optional values and fallible results shared by every module of the model.
module Results {

  /** A value that may be absent (`null`/`undefined` in the application). */
  datatype Option<+T> = None | Some(value: T)

  /** The outcome of a call that may throw: `Err` carries the exception's message. */
  datatype Result<+T> = Ok(value: T) | Err(msg: string)
}
