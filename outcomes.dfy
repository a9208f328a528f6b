/** Optional values and the classified outcome of a request handler. */
module Outcomes {

  datatype Option<T> = None | Some(value: T)

  /** The failure kinds a handler answers with: 400 for a bad request field,
      404 for a missing worker or shift, 400 for a second shift on one day,
      500 for a statement the storage engine refused. */
  datatype Error = InvalidInput | NotFound | Conflict | StorageError

  datatype Result<T> = Ok(value: T) | Err(error: Error)
}
