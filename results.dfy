/** The outcome of an operation that can fail instead of returning a value. */
module Results {

  /** Why a conversion failed: the only failure the core can raise is a
      secret that is not well-formed Base64 (a format error). */
  datatype Error = MalformedBase64

  datatype Result<+T> = Success(value: T) | Failure(error: Error)
}
