/** Optional values, results and the error kinds the index code reports. */
module Wrappers {

  datatype Option<+T> = None | Some(value: T)

  /** What a handler receives instead of a value: a msgpack conversion failure
      (msgpack::type_error), bytes msgpack cannot unpack, the "Received not all
      results" error (-ENOENT) of find_indexes, or an error delivered by the
      storage layer, identified by its code. */
  datatype Error = TypeError | UnpackError | NotAllResults | StorageError(code: int)

  datatype Result<+T> = Ok(value: T) | Err(error: Error)
}
