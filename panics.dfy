/** The source's panics, as values: a computation either produces its result
    or stops with the reason it would have panicked. */
module Panics {

  datatype Error =
    | FieldMismatch   // an operation on elements of two different fields
    | OddLength       // a transform input whose length is odd

  datatype Result<T> = Ok(value: T) | Err(error: Error) {
    predicate IsFailure() {
      Err?
    }

    function PropagateFailure<U>(): Result<U>
      requires Err?
    {
      Err(error)
    }

    function Extract(): T
      requires Ok?
    {
      value
    }
  }
}
