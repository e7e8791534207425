/** The two failure-carrying wrappers the model uses in place of Python's
    `None` results and raised exceptions. */
module Outcomes {

  datatype Option<T> = None | Some(value: T)

  datatype Result<T, E> = Ok(value: T) | Err(error: E)
}
