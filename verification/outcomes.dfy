/** The optional value and the success-or-error outcome that the engine operations return. */
module Outcomes {

  /** Either a value or the reason the source would have thrown or not returned. Its three
      members let `:-` pass an error on unchanged. */
  datatype Result<+T, +E> = Ok(value: T) | Err(error: E) {
    predicate IsFailure() {
      Err?
    }

    function PropagateFailure<U>(): Result<U, E>
      requires Err?
    {
      Err(error)
    }

    function Extract(): T
      requires Ok?
    {
      value
    }
  }

  /** An optional value; placing the snake's cells uses it for the direction its head follows. */
  datatype Option<+T> = None | Some(value: T)
}
