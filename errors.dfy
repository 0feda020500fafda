/** The errors the moderation endpoints can answer with: an HTTP status and the reason behind it. */
module Errors {
  import opened Outcomes

  /** Why `validate_url` refused a URL. */
  datatype UrlFault =
    | BadScheme         // the value does not start with `http://` or `https://`
    | LocalhostBlocked  // the host is one of the four literal local names

  /** Why `validate_image` refused decodable-or-not bytes (both end up as 400). */
  datatype ImageFault =
    | Undecodable                                // the image library could not open the bytes
    | DimensionsTooLarge(width: nat, height: nat) // the 413 raised inside the `try`, re-wrapped

  /** Why `NSFWDetector.predict` raised. */
  datatype PredictError =
    | ModelNotLoaded   // `RuntimeError("Model not loaded...")`
    | InferenceFailed  // decoding pixels, pre-processing or the network itself raised

  datatype Reason =
    | InvalidThreshold                                   // unknown preset on the upload endpoint
    | ImageTooLarge(size: nat)                           // byte length over the limit
    | InvalidImage(fault: ImageFault)
    | DownloadTimeout
    | DownloadFailed                                     // connection error or HTTP error status
    | InvalidContentType(contentType: string)
    | DownloadTooLarge(size: nat)
    | ModerationError(cause: PredictError)              // any non-HTTP exception in a handler
    | InvalidRequestBody(urlFault: Option<UrlFault>, thresholdRejected: bool) // request-model validators

  /** `HTTPException(status_code, detail)`. */
  datatype HttpError = HttpError(status: nat, reason: Reason)
}
