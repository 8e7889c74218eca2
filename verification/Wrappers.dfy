/** Values that may be absent, and operations that may fail. */
module Wrappers {
  datatype Option<+T> = None | Some(value: T)

  /** The source's error values carry only text for people, so `Err` carries nothing. */
  datatype Result<+T> = Ok(value: T) | Err
}
