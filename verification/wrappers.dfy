/** Option and Result, the two failure-carrying datatypes the model uses in place of
    Python's `None` and raised exceptions. */
module Wrappers {

  /** `None` stands for Python's `None` (a missing length, an absent keyword argument). */
  datatype Option<+T> = None | Some(value: T) {

    /** The wrapped value, or `default` when there is none. */
    function GetOr(default: T): T {
      match this
      case Some(v) => v
      case None => default
    }
  }

  /** A call that either returns a value or raises the error `error`. */
  datatype Result<+T, +E> = Success(value: T) | Failure(error: E)
}

/** The exceptions the modelled functions raise. */
module Errors {

  datatype Error =
    /** `get_num_processes`: `NUMBER_OF_CORES` is 0. */
    | CoresZero
    /** `get_num_processes`: a negative `NUMBER_OF_CORES` leaves no core to use. */
    | CoresTooNegative(requested: int, available: int)
    /** `map` / `_map_reduce_tree` were given no argument lists. */
    | NoArguments
    /** A parallel map over inputs of unknown length without a `chunksize`. */
    | ChunksizeRequired
    /** `ray.wait` was asked for more ready handles than it was given. */
    | WaitTooMany
    /** `_map_reduce_sequential` called a `reduce_func` that is `None`. */
    | ReduceNotCallable
}
