/** Value wrappers shared by the model: Rust's `Option` and `Result`, and the
    way a Rust call ends when it may stop the whole process instead of returning. */
module Outcomes {

  datatype Option<+T> = None | Some(value: T)

  datatype Result<+T, +E> = Ok(value: T) | Err(error: E)

  /** How a call ends: it returns a value, or the process stops inside it,
      through `std::process::exit(code)`, through a panic (an `unwrap`, an
      `expect`, an out-of-bounds index or an arithmetic overflow check), or
      because the runtime aborts it when the stack overflows.
      Usable with `:-`, so that a sequence of calls stops at the first one that
      does not return, as the Rust code does. */
  datatype Run<+T> = Returned(value: T) | Exited(code: int) | Panicked | Aborted {

    predicate IsFailure() {
      !Returned?
    }

    function PropagateFailure<U>(): Run<U>
      requires !Returned?
    {
      match this
      case Exited(code) => Exited(code)
      case Panicked => Panicked
      case Aborted => Aborted
    }

    function Extract(): T
      requires Returned?
    {
      value
    }
  }
}
