/**
 Failure-carrying values. The script's own failure is the mouse-out handler
 calling `removeChild(undefined)` when the element holds no link (TypeError).
 URIError belongs to the model's decodeURIComponent, the inverse of the
 encoder; the script never decodes, and its one call that could raise a
 URIError, encodeURIComponent on a lone surrogate, cannot occur because
 characters here are Unicode scalar values.
 */
module Results {

  datatype Option<+T> = None | Some(value: T)

  /** The JavaScript exceptions the model can raise. */
  datatype JsError = UriError | TypeError

  datatype Result<+T> = Ok(value: T) | Err(error: JsError)
}
