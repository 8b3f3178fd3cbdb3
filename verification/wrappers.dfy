/** Failure-aware wrappers: Python's `None` and raised exceptions are modelled
    with these instead of preconditions. */
module Wrappers {

  /** A value that may be absent; `None` stands for Python's `None` or a missing key. */
  datatype Option<+T> = None | Some(value: T) {

    /** The value, or `default` when it is absent (`dict.get(key, default)`). */
    function GetOr(default: T): T
    {
      match this
      case Some(v) => v
      case None => default
    }
  }

  /** The outcome of a step that may raise: `Failure` carries the exception. */
  datatype Result<+T, +E> = Success(value: T) | Failure(error: E)

  function Min(a: int, b: int): int { if a <= b then a else b }
  function Max(a: int, b: int): int { if a >= b then a else b }
}
