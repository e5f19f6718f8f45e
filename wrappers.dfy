/** Option and Result, with the Python exceptions the modelled code can raise
    as the failure side of Result. Both work with `:-`. */
module Wrappers {

  datatype Option<+T> = None | Some(value: T) {
    function GetOr(default: T): T {
      match this
      case Some(v) => v
      case None => default
    }
  }

  /** The exceptions the modelled code raises or lets escape. */
  datatype Exception =
    | KeyError(key: string)
    | ValueError(message: string)
    | TypeError(message: string)
    | IndexError
    | AssertionError(message: string)
    | RuntimeError(message: string)
    | BadParameter(message: string)
    | ApiError(status: int)            // docker.errors.APIError with its HTTP status
    | DockerException(message: string) // a failed streamed operation (pull)
    | ConnectionError                  // the runtime endpoint cannot be reached

  datatype Result<+T> = Ok(value: T) | Err(error: Exception) {
    predicate IsFailure() {
      Err?
    }

    function PropagateFailure<U>(): Result<U>
      requires Err?
    {
      Err(error)
    }

    function Extract(): T
      requires Ok?
    {
      value
    }
  }
}
