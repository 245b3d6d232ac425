/** Failure-carrying datatypes used in place of the source's null references
    and thrown exceptions, plus the opaque timestamp used for dates. */
module Wrappers {

  /** `None` stands for a C# `null` reference (or a missing value). */
  datatype Option<+T> = None | Some(value: T)

  /** The outcome of an operation that either produces a value or raises an error. */
  datatype Result<+T, +E> = Ok(value: T) | Err(error: E)

  /** A point in time (`DateTime`), kept opaque: only equality of dates matters here. */
  datatype Date = Date(ticks: int)
}
