/** Optional values and results with an error, used wherever the Python code
    returns None or raises an exception on malformed input. */
module Wrappers {

  datatype Option<+T> = None | Some(value: T)

  /** The exceptions the modelled code can raise, named after the Python
      exception type; `detail` says which operation raised it. */
  datatype Error = KeyError(detail: string) | IndexError(detail: string)
                 | AttributeError(detail: string) | ValueError(detail: string)

  datatype Result<+T> = Ok(value: T) | Err(error: Error)
}
