/** Option and Result, the two failure-carrying shapes the model uses for Python's
    `None` returns and raised exceptions. */
module Wrappers {

  datatype Option<+T> = None | Some(value: T)

  /** The Python exceptions the modelled code can raise. */
  datatype Error =
    | KeyError(key: string)
    | ValueError(message: string)

  datatype Result<+T> = Success(value: T) | Failure(error: Error)
}
