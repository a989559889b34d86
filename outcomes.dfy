/** The error values the backends hand back to their callers. */
module Outcomes {

  datatype Option<T> = None | Some(value: T)

  /** The two error conditions of the index contract: an insert of a key
      (or a collection name) that is already present, and a lookup, update
      or removal of one that is absent. */
  datatype Error = DuplicateKey | NotFound

  /** Go's `(value, error)` pair for operations that return a value. */
  datatype Result<T> = Ok(value: T) | Err(error: Error)
}
