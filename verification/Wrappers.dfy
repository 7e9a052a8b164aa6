// Outcomes and optional values.
module Wrappers {
  // Outcome of a decoding step: a value, an error return, or a run-time panic.
  datatype Result<+T> = Ok(value: T) | Err | Panic

  datatype Option<+T> = None | Some(value: T)
}
