/** Failure-carrying values shared by the other modules. A Go function that
    returns `(T, error)` becomes a `Result`; one that returns only `error`
    becomes an `Outcome`; a Go value that may be `nil` becomes an `Option`. */
module Wrappers {

  datatype Option<T> = None | Some(value: T)

  datatype Result<T, E> = Ok(value: T) | Err(error: E)

  datatype Outcome<E> = Pass | Fail(error: E)

  function Min(a: int, b: int): int
  {
    if a < b then a else b
  }

  function Max(a: int, b: int): int
  {
    if a < b then b else a
  }
}
