/** Failure values shared by every module of the model.

    The Python code signals failure by raising; each exception that a modelled
    operation can raise becomes an `Error` value, so that an operation that the
    source lets fail returns `Err(...)` instead of excluding the input. */
module Outcomes {

  /** The Python exceptions that the modelled code can raise. */
  datatype Error =
    | ValueError         // int() of a malformed string, unknown reference version
    | IndexError         // indexing a string or list past its end
    | KeyError           // looking up a missing dictionary key
    | NameError          // use of an undefined name
    | ZeroDivisionError  // division by zero

  datatype Option<+T> = None | Some(value: T)

  datatype Result<+T> = Ok(value: T) | Err(error: Error)
}
