/** Error-carrying results and optional values, the Go `(value, error)` and
    `(value, ok)` return conventions written as datatypes. */
module Results {

  /** A Go `(T, error)` pair: either a value with a nil error or a non-nil error. */
  datatype Result<+T> = Ok(value: T) | Err(error: string)

  /** A value that may be absent, e.g. the outcome of a failed integer parse. */
  datatype Option<+T> = None | Some(value: T)
}
