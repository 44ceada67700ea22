/** The two wrapper datatypes shared by the models. */
module Wrappers {
  datatype Option<+T> = None | Some(value: T)

  // The `{ ok: true, data } | { ok: false, error }` union of src/lib/result.ts.
  datatype Result<+T, +E> = Ok(data: T) | Err(error: E)
}
