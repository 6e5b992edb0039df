/** Failure-carrying datatypes shared by the whole model. */
module Wrappers {

  /** A value that may be absent; stands for Go's nil slices and nil maps. */
  datatype Option<+T> = None | Some(value: T)

  /** A Go `(value, error)` pair where only one side matters. */
  datatype Result<+T> = Ok(value: T) | Err(error: string)

  /** How a piece of Go code ends: it returns normally, or it stops with a run-time panic
      (integer division by zero, slice index out of range). */
  datatype Outcome<+T> = Return(value: T) | Panic(reason: string)
}
