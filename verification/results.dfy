/** Failure-carrying values shared by every endpoint of the mock API. */
module Results {

  /** A value that may be absent: Python's `Optional[...]` / `None`. */
  datatype Option<+T> = None | Some(value: T)

  /** The errors the handlers raise as `HTTPException`. */
  datatype ApiError =
    | AudioFileRequired        // upload without a file name
    | InvalidFileType          // extension outside the whitelist
    | InvalidExcludeIds        // an `excludeIds` segment is not an integer
    | NotFound                 // no contribution carries the requested id
    | RejectionReasonRequired  // rejecting without a reason
  {
    /** The HTTP status code the handler attaches to the error. */
    function Status(): (code: int)
      ensures code == 404 <==> this == NotFound
      ensures code != 404 ==> code == 400
    {
      if this == NotFound then 404 else 400
    }
  }

  /** Either the value an endpoint returns or the error it raises. */
  datatype Result<+T> = Success(value: T) | Failure(error: ApiError)
}
