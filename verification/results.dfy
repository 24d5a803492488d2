/** Failure-carrying values shared by the parser, the statistics and the pipeline. */
module Results {

  /** A value that may be absent; used where the source produces NaN. */
  datatype Option<T> = None | Some(value: T)

  /** The outcome of an operation that can abort the run. */
  datatype Result<T, E> = Ok(value: T) | Err(error: E)
}
