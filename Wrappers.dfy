/** Option and Result, the two wrappers the model uses for Java's `null` and for
    exceptions that a caller can observe. */
module Wrappers {

  /** `None` stands for a Java `null` or an absent value. */
  datatype Option<+T> = None | Some(value: T)

  /** `Err` stands for an exception thrown out of the modelled method. */
  datatype Result<+T, +E> = Ok(value: T) | Err(error: E)
}
