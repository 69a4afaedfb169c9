/** Plain value wrappers shared by the other modules: an optional value and
    a value-or-error. */
module Wrappers {

  /** An optional value: a missing page element, an absent match. */
  datatype Option<+T> = None | Some(value: T)

  /** A value or a human-readable error message, the way the exporter
      reports failures (as category strings, never as typed exceptions). */
  datatype Result<+T> = Ok(value: T) | Err(error: string)
}
