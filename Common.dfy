/**
 * Small wrappers shared by every part of the model: an optional value, and
 * the result of an operation that raises an exception in the source (the
 * exception's message becomes the `Err` payload).
 */
module Common {

  datatype Option<+T> = None | Some(value: T)

  datatype Result<+T> = Ok(value: T) | Err(message: string)

}
