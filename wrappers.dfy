/** Failure-carrying result types shared by every component. A Go `error`
    return is modelled by the `Err`/`Fail` variants, carrying the message the
    source builds with `errors.New`. */
module Wrappers {

  /** A value that may be absent: Go's `nil` slice or pointer. */
  datatype Option<+T> = None | Some(value: T)

  /** A value or the error message that replaced it. */
  datatype Result<+T> = Ok(value: T) | Err(msg: string)

  /** An operation that returns only an `error`. */
  datatype Outcome = Pass | Fail(msg: string)
}
