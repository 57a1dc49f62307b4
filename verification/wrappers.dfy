/** Failure-compatible wrappers used for values that may be absent and for
    operations that may throw. */
module Wrappers {

  datatype Option<+T> = None | Some(value: T)

  /** `Err` stands for a Java exception escaping the operation. */
  datatype Result<+T, +E> = Ok(value: T) | Err(error: E) {

    predicate IsFailure() {
      Err?
    }

    function PropagateFailure<U>(): Result<U, E>
      requires Err?
    {
      Err(error)
    }

    function Extract(): T
      requires Ok?
    {
      value
    }
  }
}
