/** Optional values and handler results shared by every module of the model. */
module Outcomes {

  datatype Option<+T> = None | Some(value: T)

  /** An HTTPException raised by a handler: its status code and its detail text. */
  datatype ApiError = ApiError(status: int, detail: string)

  /** What a handler returns: a value, or the HTTP error it raises. */
  datatype Result<+T> = Ok(value: T) | Err(error: ApiError)
}
