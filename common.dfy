/** Values shared by every part of the model: bytes, optional values and the
    ways a request handler of the service can end early. */
module Common {

  /** A body as it travels over HTTP. */
  type Bytes = seq<bv8>

  datatype Option<T> = None | Some(value: T)

  /** How a handler stops without producing a value.
      `Abort(code)` is Flask's `abort(code)`; `KeyError(key)` is a lookup of a
      missing key in a decoded JSON object, which Flask answers with 500 unless
      the code catches it. */
  datatype Failure = Abort(code: int) | KeyError(key: string)

  datatype Result<T> = Ok(value: T) | Err(failure: Failure)

  const NOT_FOUND := 404
  const SERVICE_UNAVAILABLE := 503

  /** Attempts each retry loop (token exchange, API request) makes before
      giving up with 503. */
  const MAX_ATTEMPTS := 3
}
