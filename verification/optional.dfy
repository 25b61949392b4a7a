/** The two shapes of Python value the model needs: a value that may be
    `None`, and a call that either returns or raises. */
module Optional {

  /** `None`, or a present value. */
  datatype Option<T> = None | Some(value: T) {

    /** The present value; `fallback` stands in for `None`. */
    function ValueOr(fallback: T): T
    {
      if Some? then value else fallback
    }
  }

  /** What a call returns, or the error it raises. */
  datatype Result<T, E> = Success(value: T) | Failure(error: E)
}
