/** Python exceptions raised by the mapping compiler and the helpers, as values. */
module Results {

  /** The three exceptions the modelled code can raise. */
  datatype Error =
    | KeyError(key: string)   // dict lookup or pop of a missing key
    | AssertionError          // a failed `assert`
    | IndexError              // indexing past the end of a string or list

  /** Either a value or the exception that stopped the computation; usable with `:-`. */
  datatype Result<+T> = Success(value: T) | Failure(error: Error) {

    predicate IsFailure() {
      Failure?
    }

    function PropagateFailure<U>(): Result<U>
      requires Failure?
    {
      Failure(error)
    }

    function Extract(): T
      requires Success?
    {
      value
    }
  }

  datatype Option<+T> = None | Some(value: T)
}
