/** Outcome of an operation whose source aborts with a diagnostic on bad input. */
module Results {

  datatype Result<T, E> = Ok(value: T) | Fail(error: E)
}
