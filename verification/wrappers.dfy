/** Failure-carrying datatypes shared by the whole model.
    - Option<T> stands in for JavaScript's `null`, and for the `Infinity` default of an unbounded limit.
    - Result<T, E> stands in for a synchronous `throw` of the source. */
module Wrappers {

  datatype Option<+T> = None | Some(value: T)

  datatype Result<+T, +E> = Success(value: T) | Failure(error: E)

  /** `n > limit`, where an absent limit is JavaScript's `Infinity` and is never exceeded. */
  predicate Exceeds(n: int, limit: Option<nat>)
  {
    limit.Some? && n > limit.value
  }
}
