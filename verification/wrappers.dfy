/** Failure-carrying datatypes shared by every module of the model.
    The source signals errors three ways: by returning `false`, by throwing,
    and by returning `null`; these datatypes give each a value. */
module Wrappers {

  datatype Option<+T> = None | Some(value: T) {
    function GetOr(default: T): T {
      match this
      case Some(v) => v
      case None => default
    }
  }

  /** The outcome of an operation that throws on failure. */
  datatype Result<+T, +E> = Ok(value: T) | Err(error: E)

  /** The outcome of an operation that answers `true`/`false` and mutates its
      receiver only when it answers `true`. */
  datatype Step<+T> = Step(ok: bool, state: T)
}
