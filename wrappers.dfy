/** Option and Result, and the one Python exception the translators can raise. */
module Wrappers {

  datatype Option<+T> = None | Some(value: T)

  /** The outcome of a Python call: a value, or an exception that escapes it. */
  datatype Result<+T> = Ok(value: T) | Raised(error: PyError)

  /** `d["args"]` on a dictionary that has no such key. */
  datatype PyError = KeyError(key: string)
}
