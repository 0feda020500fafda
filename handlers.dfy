/**
 * The two moderation endpoints: the order of their checks, the status of
 * every failure, and the single metrics sample each call records. Timing
 * enters as the measured latency; the upload, the download and the
 * classifier enter as their outcomes.
 */
module Handlers {
  import opened Outcomes
  import opened Errors
  import opened Validation
  import opened Detector
  import opened MetricsRecorder
  import Config

  /** An uploaded file: its bytes, and what opening them as an image yields. */
  datatype Upload = Upload(bytes: Bytes, decoded: Option<Dims>)

  /** The success body: the verdict plus the measured processing time. */
  datatype ModerationRecord = ModerationRecord(verdict: Verdict, processingTimeMs: real)

  /** An error that is not an `HTTPException` is answered as a 500. */
  function AsServerError(e: PredictError): (r: HttpError)
    ensures r.status == 500
  {
    HttpError(500, ModerationError(e))
  }

  /** What classifying validated bytes yields, as the endpoint reports it. */
  function Classified(loaded: bool, labels: map<nat, string>, inference: Inference, preset: string): (r: Result<Verdict, HttpError>)
    ensures r.Ok? <==> loaded && inference.Probabilities?
    ensures r.Err? ==> r.error.status == 500
    ensures r.Ok? ==> r.value.thresholdPreset == preset && r.value.thresholdUsed == ThresholdFor(preset)
    ensures r.Ok? ==> r.value == ClassifyOutcome(loaded, labels, inference, preset).value
    ensures r.Err? ==> r.error == AsServerError(ClassifyOutcome(loaded, labels, inference, preset).error)
  {
    match ClassifyOutcome(loaded, labels, inference, preset)
    case Err(e) => Err(AsServerError(e))
    case Ok(v) => Ok(v)
  }

  // ----- moderate_image_file -----

  /** The answer of `moderate_image_file`: threshold, then the image checks, then the classifier. */
  function FileOutcome(loaded: bool, labels: map<nat, string>, threshold: string, upload: Upload, inference: Inference): (r: Result<Verdict, HttpError>)
    ensures threshold !in Config.Thresholds ==> r == Err(HttpError(400, InvalidThreshold))
    ensures r.Ok? <==>
      && threshold in Config.Thresholds
      && ValidateImage(upload.bytes, upload.decoded).Pass?
      && loaded && inference.Probabilities?
    ensures r.Err? ==> r.error.status in {400, 413, 500}
    ensures threshold in Config.Thresholds && ValidateImage(upload.bytes, upload.decoded).Fail? ==>
      r == Err(ValidateImage(upload.bytes, upload.decoded).error)
    ensures threshold in Config.Thresholds && ValidateImage(upload.bytes, upload.decoded).Pass? ==>
      r == Classified(loaded, labels, inference, threshold)
  {
    if threshold !in Config.Thresholds then Err(HttpError(400, InvalidThreshold))
    else match ValidateImage(upload.bytes, upload.decoded)
      case Fail(e) => Err(e)
      case Pass => Classified(loaded, labels, inference, threshold)
  }

  /** A refused preset is a 400 whatever was uploaded and whatever the classifier would say. */
  lemma InvalidThresholdFirst(loaded: bool, labels: map<nat, string>, threshold: string, a: Upload, b: Upload, i: Inference, j: Inference)
    requires threshold !in Config.Thresholds
    ensures FileOutcome(loaded, labels, threshold, a, i) == FileOutcome(loaded, labels, threshold, b, j)
    ensures FileOutcome(loaded, labels, threshold, a, i).error.status == 400
  {
  }

  /** An oversized upload is a 413 before decoding or classification is looked at. */
  lemma OversizedUploadRefused(loaded: bool, labels: map<nat, string>, threshold: string, upload: Upload, inference: Inference)
    requires threshold in Config.Thresholds
    requires |upload.bytes| > Config.MaxImageSizeBytes
    ensures FileOutcome(loaded, labels, threshold, upload, inference) == Err(HttpError(413, ImageTooLarge(|upload.bytes|)))
  {
  }

  /** 413 is reserved for the byte limit: oversized dimensions are a 400. */
  lemma OnlyByteLimitIs413(loaded: bool, labels: map<nat, string>, threshold: string, upload: Upload, inference: Inference)
    ensures var r := FileOutcome(loaded, labels, threshold, upload, inference);
      r.Err? && r.error.status == 413 <==> threshold in Config.Thresholds && |upload.bytes| > Config.MaxImageSizeBytes
  {
  }

  /**
   * `moderate_image_file`: every call records exactly one latency sample,
   * counted as an error exactly when the call fails.
   */
  method ModerateImageFile(
    metrics: Metrics, detector: NsfwDetector,
    threshold: string, upload: Upload, inference: Inference, latencyMs: real)
    returns (response: Result<ModerationRecord, HttpError>)
    requires metrics.Valid()
    modifies metrics
    ensures metrics.Valid()
    ensures var expected := FileOutcome(detector.loaded, detector.labels, threshold, upload, inference);
      && (response.Ok? <==> expected.Ok?)
      && (response.Ok? ==> response.value == ModerationRecord(expected.value, latencyMs))
      && (response.Err? ==> response.error == expected.error)
    ensures metrics.requestCount == old(metrics.requestCount) + 1
    ensures metrics.errorCount == old(metrics.errorCount) + (if response.Err? then 1 else 0)
    ensures metrics.latencies == Window(old(metrics.latencies), latencyMs)
  {
    if threshold !in Config.Thresholds {
      metrics.RecordRequest(latencyMs, true);
      return Err(HttpError(400, InvalidThreshold));
    }
    var imageBytes := upload.bytes;
    var check := ValidateImage(imageBytes, upload.decoded);
    if check.Fail? {
      metrics.RecordRequest(latencyMs, true);
      return Err(check.error);
    }
    var results := PredictNsfw(detector, inference, threshold);
    if results.Err? {
      metrics.RecordRequest(latencyMs, true);
      return Err(AsServerError(results.error));
    }
    metrics.RecordRequest(latencyMs, false);
    response := Ok(ModerationRecord(results.value, latencyMs));
  }

  // ----- moderate_image_url -----

  /** The answer of `moderate_image_url` for a request that passed validation. */
  function UrlOutcome(
    loaded: bool, labels: map<nat, string>, request: ImageUrlRequest,
    fetch: FetchOutcome, decoded: Option<Dims>, inference: Inference): (r: Result<Verdict, HttpError>)
    ensures r.Ok? <==>
      && DownloadImage(fetch).Ok?
      && ValidateImage(fetch.body, decoded).Pass?
      && loaded && inference.Probabilities?
    ensures r.Err? ==> r.error.status in {400, 408, 500}
    ensures r.Err? && r.error.status == 408 <==> fetch.FetchTimeout?
    ensures DownloadImage(fetch).Err? ==> r == Err(DownloadImage(fetch).error)
    ensures DownloadImage(fetch).Ok? && ValidateImage(fetch.body, decoded).Fail? ==>
      r == Err(ValidateImage(fetch.body, decoded).error)
    ensures DownloadImage(fetch).Ok? && ValidateImage(fetch.body, decoded).Pass? ==>
      r == Classified(loaded, labels, inference, request.threshold)
  {
    match DownloadImage(fetch)
    case Err(e) => Err(e)
    case Ok(image) =>
      match ValidateImage(image, decoded)
      case Fail(e) => Err(e)
      case Pass => Classified(loaded, labels, inference, request.threshold)
  }

  /**
   * `moderate_image_url`: as for uploads, one sample per call, an error
   * sample exactly when the call fails.
   */
  method ModerateImageUrl(
    metrics: Metrics, detector: NsfwDetector, request: ImageUrlRequest,
    fetch: FetchOutcome, decoded: Option<Dims>, inference: Inference, latencyMs: real)
    returns (response: Result<ModerationRecord, HttpError>)
    requires metrics.Valid()
    modifies metrics
    ensures metrics.Valid()
    ensures var expected := UrlOutcome(detector.loaded, detector.labels, request, fetch, decoded, inference);
      && (response.Ok? <==> expected.Ok?)
      && (response.Ok? ==> response.value == ModerationRecord(expected.value, latencyMs))
      && (response.Err? ==> response.error == expected.error)
    ensures metrics.requestCount == old(metrics.requestCount) + 1
    ensures metrics.errorCount == old(metrics.errorCount) + (if response.Err? then 1 else 0)
    ensures metrics.latencies == Window(old(metrics.latencies), latencyMs)
  {
    var threshold := request.threshold;
    var download := DownloadImage(fetch);
    if download.Err? {
      metrics.RecordRequest(latencyMs, true);
      return Err(download.error);
    }
    var imageBytes := download.value;
    var check := ValidateImage(imageBytes, decoded);
    if check.Fail? {
      metrics.RecordRequest(latencyMs, true);
      return Err(check.error);
    }
    var results := PredictNsfw(detector, inference, threshold);
    if results.Err? {
      metrics.RecordRequest(latencyMs, true);
      return Err(AsServerError(results.error));
    }
    metrics.RecordRequest(latencyMs, false);
    response := Ok(ModerationRecord(results.value, latencyMs));
  }

  /**
   * The `/moderate-url` route as a whole: the JSON body becomes an
   * `ImageURLRequest` first (an omitted `threshold` is `balanced`); a body
   * the validators refuse is a 422 and the handler, with its metrics
   * sample, never runs.
   */
  method ModerateUrlEndpoint(
    metrics: Metrics, detector: NsfwDetector, imageUrl: string, threshold: Option<string>,
    fetch: FetchOutcome, decoded: Option<Dims>, inference: Inference, latencyMs: real)
    returns (response: Result<ModerationRecord, HttpError>)
    requires metrics.Valid()
    modifies metrics
    ensures metrics.Valid()
    ensures ParseImageUrlRequest(imageUrl, threshold.GetOr("balanced")).Err? ==>
      && response == Err(ParseImageUrlRequest(imageUrl, threshold.GetOr("balanced")).error)
      && response.error.status == 422
      && unchanged(metrics)
    ensures ParseImageUrlRequest(imageUrl, threshold.GetOr("balanced")).Ok? ==>
      && metrics.requestCount == old(metrics.requestCount) + 1
      && metrics.errorCount == old(metrics.errorCount) + (if response.Err? then 1 else 0)
      && metrics.latencies == Window(old(metrics.latencies), latencyMs)
      && (response.Ok? <==>
          UrlOutcome(detector.loaded, detector.labels, ParseImageUrlRequest(imageUrl, threshold.GetOr("balanced")).value,
            fetch, decoded, inference).Ok?)
      && (response.Ok? ==> response.value == ModerationRecord(
          UrlOutcome(detector.loaded, detector.labels, ParseImageUrlRequest(imageUrl, threshold.GetOr("balanced")).value,
            fetch, decoded, inference).value, latencyMs))
      && (response.Err? ==>
            response.error == UrlOutcome(detector.loaded, detector.labels, ParseImageUrlRequest(imageUrl, threshold.GetOr("balanced")).value,
            fetch, decoded, inference).error)
  {
    var request := ParseImageUrlRequest(imageUrl, threshold.GetOr("balanced"));
    if request.Err? {
      return Err(request.error);
    }
    response := ModerateImageUrl(metrics, detector, request.value, fetch, decoded, inference, latencyMs);
  }

  // ----- properties across the two endpoints -----

  /** A blocked URL never reaches the network: the answer is the same 422 whatever the fetch would do. */
  lemma BlockedUrlNeverFetched(imageUrl: string, threshold: string)
    requires ValidateUrl(imageUrl) == Err(LocalhostBlocked)
    ensures ParseImageUrlRequest(imageUrl, threshold).Err?
    ensures ParseImageUrlRequest(imageUrl, threshold).error == HttpError(422, InvalidRequestBody(Some(LocalhostBlocked), ValidateThreshold(threshold).None?))
  {
  }

  /** Both endpoints decide the same way on the same bytes: once the image is in hand, the paths agree. */
  lemma EndpointsAgreeOnImage(
    loaded: bool, labels: map<nat, string>, request: ImageUrlRequest, contentType: string,
    image: Bytes, decoded: Option<Dims>, inference: Inference)
    requires request.threshold in Config.Thresholds
    requires AcceptedContentType(contentType) && |image| <= Config.MaxImageSizeBytes
    ensures UrlOutcome(loaded, labels, request, Fetched(200, Some(contentType), image), decoded, inference) ==
      FileOutcome(loaded, labels, request.threshold, Upload(image, decoded), inference)
  {
  }

  /** A successful upload reports the filled scores, the preset's threshold and the top score. */
  lemma FileSuccessReport(labels: map<nat, string>, threshold: string, upload: Upload, probs: seq<real>)
    requires threshold in Config.Thresholds
    requires ValidateImage(upload.bytes, upload.decoded).Pass?
    ensures var r := FileOutcome(true, labels, threshold, upload, Probabilities(probs));
      var filled := FillMissing(Collect(labels, probs));
      && r.Ok?
      && r.value.nsfw == filled["nsfw"] && r.value.normal == filled["normal"]
      && r.value.thresholdUsed == Config.Thresholds[threshold]
      && (r.value.isNsfw <==> filled["nsfw"] >= Config.Thresholds[threshold])
      && r.value.nsfw <= r.value.confidence && r.value.normal <= r.value.confidence
  {
    AssembleFilled(Collect(labels, probs), threshold);
  }

  /** Before `load_model` has run, every image that passes validation is a 500. */
  lemma UnloadedModelIsServerError(labels: map<nat, string>, threshold: string, upload: Upload, inference: Inference)
    requires threshold in Config.Thresholds
    requires ValidateImage(upload.bytes, upload.decoded).Pass?
    ensures FileOutcome(false, labels, threshold, upload, inference) == Err(HttpError(500, ModerationError(ModelNotLoaded)))
  {
  }
}
