/** The failures the modelled code lets escape, as values. */
module Outcomes {

  datatype Option<T> = None | Some(value: T)

  /** The Python exceptions that end an operation of the model. */
  datatype Error =
    | KeyError(key: string)   // a dict lookup `d[key]` of an absent key
    | IndexError              // a list index past the end
    | ZeroDivisionError       // a float division by 0.0

  datatype Result<T> = Ok(value: T) | Err(error: Error)
}
