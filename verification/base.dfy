/** Failure-carrying wrappers shared by every module of the model.
    `None` stands for JavaScript's `null`/`undefined`/`NaN` where a value may
    be missing, and `Err` for a thrown exception. */
module Base {

  datatype Option<+T> = None | Some(value: T)

  datatype Result<+T, +E> = Ok(value: T) | Err(error: E)

  /** A number with no fractional part, as both the ray's cell boundaries
      and the server's `Math.round` test read it. */
  predicate IsInteger(r: real) {
    r == r.Floor as real
  }
}
