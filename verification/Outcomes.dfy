/** The result types the model shares: the source's `Option`, its `ZkError`, and a result with three outcomes. */
module Outcomes {

  datatype Option<+T> = None | Some(value: T)

  /** The errors of src/errors.rs that the byte path can return. */
  datatype ZkError =
    | InvalidOpCode(code: int)
    | DecodeError
    | EncodeError
    | InvalidString

  /** A value, an error returned to the caller, or a Rust panic (short reads, failed `assert!`, `todo!`). */
  datatype Outcome<+T, +E> = Ok(value: T) | Err(error: E) | Panic {
    predicate IsFailure() {
      !Ok?
    }

    function PropagateFailure<U>(): Outcome<U, E>
      requires IsFailure()
    {
      match this
      case Err(e) => Outcome.Err(e)
      case Panic => Outcome.Panic
    }

    function Extract(): T
      requires !IsFailure()
    {
      value
    }
  }
}
