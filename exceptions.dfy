/** The failure channel of ForgettingMap: the four exception kinds of
    com.kerem.exception and a nullable Java reference, as values. */
module Exceptions {

  /** One constructor per exception class the map throws. */
  datatype Error =
    | NotInitialized   // ForgettingMapNotInitializedException: capacity below one
    | KeyNull          // ForgettingMapKeyNullException: a null key
    | ValueNull        // ForgettingMapValueNullException: a null value
    | KeyNotFound      // ForgettingMapKeyNotFoundException: the key is not listed

  /** A Java reference argument: None stands for null. */
  datatype Option<T> = None | Some(value: T)

  /** The outcome of a Java method that returns a value or throws. */
  datatype Result<T> = Ok(value: T) | Err(error: Error)

  /** The outcome of a void Java method that may throw. */
  datatype Outcome = Pass | Fail(error: Error)
}
