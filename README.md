# NSFW detection API: a Dafny model of its decision rules

The service (charrlodin/nsfw-detection-api) wraps a pretrained image classifier in two FastAPI
endpoints: `POST /moderate` takes an uploaded file and `POST /moderate-url` takes a JSON body with an image URL. Around the
classifier sit a handful of deterministic rules, and this project models them and proves
properties about them:

- **Metrics recorder** (`metrics.dfy`, module `MetricsRecorder`). A `Metrics` class with the two counters and
  the latency list that `record_request` updates in place. The list keeps the 1000 most recent samples.
  `GetStats` reads its p50/p95/p99 percentiles, and `ErrorRate` is the guarded error rate of `/metrics`.
- **Request validators** (`validation.dfy`, module `Validation`):
  - `ImageURLRequest.validate_url`, with the hostname extraction of `urllib.parse.urlparse` modelled on strings;
  - `validate_threshold`, and the request model as a whole (a 422 when a validator refuses);
  - `validate_image`, over the byte length and the decoded dimensions;
  - the checks `download_image` applies to a fetched response.
- **Threshold decision policy** (`detector.dfy`, module `Detector`):
  - label normalisation, and the enumeration loop of `NSFWDetector.predict`;
  - the fill step that completes `normal`/`nsfw` by complement;
  - `is_nsfw` (inclusive `>=`, unknown presets fall back to `balanced`), `get_confidence` (maximum) and `predict_nsfw`;
  - the `NsfwDetector` class, whose `Predict` refuses to run before `LoadModel`.
- **Upload orchestration** (`handlers.dfy`, module `Handlers`). `moderate_image_file` and
  `moderate_image_url`: the order of their checks, the HTTP status of each failure, and the one metrics
  sample every call records.
- **Constants** (`config.dfy`, module `Config`): the threshold presets and the image limits. `errors.dfy` names
  the HTTP errors, `outcomes.dfy` holds `Option`/`Result`, and `text.dfy` holds the string helpers.

The model has the following inputs, which are not computed in Dafny:

| input | what it stands for | modelled as |
|---|---|---|
| clock | wall clock | the measured latency `latencyMs` |
| upload | the uploaded file | its bytes plus what PIL reports when opening them: `Option<Dims>` |
| fetch | the network fetch | a `FetchOutcome` (timeout, request error, or status, content type and body) |
| inference | the neural network | an `Inference` (a failure, or the softmax probabilities) |
| load_model | the model load | the `id2label` map it installs |

Latencies and probabilities are `real`s.

### Where the behaviour differs from the messages and comments

The model follows the code:

- **Private addresses are accepted.** `validate_url` raises "Private IP addresses not allowed" inside a `try` whose
  `except ValueError: pass` swallows it (main.py:89-96). Only the four literal host names at main.py:86
  are refused, compared after lower-casing. `PrivateAddressesPass` proves that 10.0.0.1, 192.168.1.20
  and 169.254.169.254 pass unchanged.
- **URL parse errors are accepted too.** A URL that `urlparse` cannot split, such as one with an unbalanced `[`, raises an error whose
  message lacks "not allowed". That error is swallowed as well (main.py:97-100), so the URL is accepted (`ParseHostname` returns `Unparsable`).
- **Oversized dimensions give 400, not 413.** The 413 raised for them (main.py:223-227) is caught by the
  blanket `except Exception` of the same `try` and re-raised as 400 (main.py:229-230). The only 413 is for
  the byte length.
- **A download over the size limit is a 400**, not a 413 (main.py:195-196, 204-205).
- **`download_image` accepts fewer content types than the configuration lists.** It accepts any
  content type that *contains* one of five fragments. `image/bmp` is not one of them, although
  `ALLOWED_IMAGE_TYPES` lists it (config.py:26).
- **A refused `/moderate-url` body is a 422.** FastAPI answers it before the handler runs, so no metrics sample is recorded.

## Model

| member | source | states |
|---|---|---|
| Config.ThresholdPresets | config.py:34-38 | the presets are exactly strict, balanced and permissive, at 0.3, 0.5 and 0.7 |
| Config.ThresholdsIncreasing | config.py:34-38 | strict < balanced < permissive |
| Config.ThresholdsAreProbabilities | config.py:34-38 | every threshold lies in [0, 1] |
| Config.DefaultPreset | config.py:41-42 | the default preset is a configured preset and the flag threshold is 0.5 |
| Config.ImageLimits | config.py:24-27 | the byte limit is 10485760 and the dimension limit 4096 |
| MetricsRecorder.Window | main.py:51-54 | after an append the list has length min(old+1, 1000), ends with the new sample, and before it holds the most recent old samples in order |
| MetricsRecorder.ReplayKeepsMostRecent | main.py:47-54 | after any sequence of recordings the list is exactly the last min(n, 1000) samples, oldest first |
| MetricsRecorder.SortAscending | main.py:59 | `sorted`: an ascending permutation of its input |
| MetricsRecorder.RankOfSorted | main.py:59-64 | the element at index k of the sorted list is a sample, with at least k+1 samples at or below it and at most k strictly below it |
| MetricsRecorder.PercentileIndices | main.py:60-63 | for n > 0 the indices n/2, n*95/100 and n*99/100 are ordered and lie in [0, n) |
| MetricsRecorder.Metrics.constructor | main.py:41-44 | a new recorder has zero counts and no latencies |
| MetricsRecorder.Metrics.RecordRequest | main.py:47-54 | the request count rises by one, the error count by one exactly when the call is an error, and the list becomes the window after the sample; the counter invariant is kept |
| MetricsRecorder.Metrics.ErrorRate | main.py:307 | the error rate is 0 with no requests; otherwise it is the number of failed requests divided by the number of requests (rate × requests = errors), lies in [0, 1], is 0 exactly when no request failed, and is 1 exactly when every request failed |
| MetricsRecorder.Metrics.GetStats | main.py:56-64 | empty exactly when there are no latencies; otherwise keys p50/p95/p99 with p50 <= p95 <= p99, each value a recorded sample holding its rank among the samples; p50 is the sorted window's element at index n/2 |
| MetricsRecorder.MedianOfHundredSamples | main.py:47-61 | a recorder whose recorded latencies were 10, 20, ..., 1000, in that order, reports a p50 of 510 |
| Validation.ParseHostname | main.py:83-86 | the parse fails exactly when the network location holds one square bracket without the other; a host it returns is non-empty, holds no capital letter, no `@` and none of `/`, `?`, `#` |
| Validation.ValidateUrl | main.py:76-102 | refused for a bad scheme exactly when the value lacks an `http://`/`https://` prefix; refused as local exactly when its parsed host is one of the four local names; every other value, private addresses and unparsable hosts included, is returned unchanged |
| Validation.UrlHostDecides | main.py:80-88 | for any URL of scheme, optional user information, host, optional `:port` and path, the parsed hostname is the lower-cased host (none when the host is empty, so the local-name test is skipped), and the URL passes exactly when the lower-cased host is not a local name |
| Validation.BracketedHostDecides | main.py:80-88 | the same for a bracketed host `[host]`, after optional user information and with or without a `:port` |
| Validation.SchemeExamples | main.py:78-79 | `ftp://...` and the upper-case `HTTP://...` are refused |
| Validation.LocalNamesRefused | main.py:84-88 | LOCALHOST, LocalHost, 127.0.0.1 and 0.0.0.0 are refused under either scheme, with or without user information, with or without a port (`:8080`, `:6379`) |
| Validation.BracketedLoopbackRefused | main.py:84-88 | `[::1]` is refused, with or without `admin@` before it and with or without the port `:80` |
| Validation.HostlessUrlPasses | main.py:83-84 | a URL with an empty host (`http:///x`, `http://user@:80/`) has no hostname and passes unchanged |
| Validation.PrivateAddressesPass | main.py:89-96 | private, link-local and metadata addresses pass unchanged, with or without user information or a port |
| Validation.UserInfoIsNotHost | main.py:83-88 | `localhost@` as user information does not make the URL local |
| Validation.ValidateThreshold | main.py:104-108 | a preset name is accepted exactly when it is strict, balanced or permissive, and returned unchanged |
| Validation.ParseImageUrlRequest | main.py:71-108 | the request is built exactly when both validators accept; otherwise a 422 naming each refusal |
| Validation.ValidateImage | main.py:208-230 | passes exactly when the byte length, decoding and both dimensions are within limits; 413 exactly for too many bytes, checked before decoding; otherwise 400 |
| Validation.DownloadImage | main.py:185-205 | returns the body exactly for a non-error status, an accepted content type and a body within the limit; 408 exactly on timeout, 400 for every other failure; a bad content type is reported before the size |
| Validation.ContentTypeExamples | main.py:189-191 | `image/bmp` is configured yet refused; a header merely containing `image/png` passes; a missing header is refused |
| Detector.NormalizeLabel | model_loader.py:97 | the key has the label's length, no spaces and no upper-case letters, each space becoming `_` |
| Detector.NormalizeLabelIdempotent | model_loader.py:97 | normalising twice is normalising once |
| Detector.LabelKeyIsNormalized | model_loader.py:96-97 | the key of an index is its normalised label, or exactly `class_<idx>` when unmapped |
| Detector.CollectKeys | model_loader.py:95-98 | the loop's keys are exactly the keys of the indices |
| Detector.CollectLastWins | model_loader.py:95-98 | where keys collide the last index's probability is kept |
| Detector.CollectInUnit | model_loader.py:95-98 | probabilities in [0, 1] give values in [0, 1] |
| Detector.FillMissing | model_loader.py:100-104 | both classes are present afterwards, no existing label changes, and the missing class is the complement (1.0/0.0 when both are missing); values stay in [0, 1] |
| Detector.FillMissingIdempotent | model_loader.py:100-104 | filling twice is filling once |
| Detector.ThresholdFor | model_loader.py:123 | a configured preset's threshold, and 0.5 for any other name |
| Detector.IsNsfw | model_loader.py:112-124 | flagged exactly when the `nsfw` score reaches the preset's configured threshold (inclusive), or the balanced threshold for an unknown preset; never flagged without an `nsfw` score |
| Detector.PresetsNested | model_loader.py:123-124 | flagged under permissive implies flagged under balanced, which implies flagged under strict |
| Detector.ThresholdInclusive | model_loader.py:124 | a score equal to the threshold is flagged, one below it is not |
| Detector.UnknownPresetIsBalanced | model_loader.py:123 | an unknown preset decides as balanced does |
| Detector.MissingScoreNeverFlagged | model_loader.py:124 | without an `nsfw` score nothing is flagged |
| Detector.GetConfidence | model_loader.py:126-134 | the confidence is one of the values and at least every value |
| Detector.ConfidenceOfTwoClasses | model_loader.py:134 | with just the two classes, the confidence is the larger score |
| Detector.Assemble | model_loader.py:157-169 | the reported preset echoes the input, the threshold is the one the decision used, the decision is nsfw >= threshold, the scores default to 0.0, and the confidence is the top score |
| Detector.AssembleFilled | model_loader.py:157-169 | after filling, the confidence is at least both reported scores |
| Detector.BalancedVerdictExample | model_loader.py:157-169 | nsfw 0.6 and normal 0.4 under balanced are flagged, with confidence 0.6 and threshold 0.5 |
| Detector.FilledVerdictExample | model_loader.py:100-104 | an `nsfw` score of 0.9 alone gets `normal` 0.1 and is flagged with confidence 0.9 |
| Detector.PredictOutcome | model_loader.py:58-106 | refused before a model is loaded, a failure when inference fails, and otherwise exactly the scores collected per label key (a later duplicate key overwriting an earlier one) with a missing `normal` or `nsfw` key filled with the complement of the other (1 and 0 when both are missing), as `FillMissing` does; every index's key is present |
| Detector.NsfwDetector.constructor | model_loader.py:21-25 | a new detector has no model |
| Detector.NsfwDetector.LoadModel | model_loader.py:27-56 | afterwards the model is loaded with the given label mapping |
| Detector.NsfwDetector.Predict | model_loader.py:58-106 | computes `PredictOutcome` for the detector's state |
| Detector.NsfwDetector.Enumerate | model_loader.py:95-98 | the loop builds exactly the collected map |
| Detector.ClassifyOutcome | model_loader.py:146-169 | succeeds exactly when prediction does, with the assembled verdict; otherwise passes on the prediction error |
| Detector.PredictNsfw | model_loader.py:146-169 | computes `ClassifyOutcome`; the verdict echoes the preset and its threshold |
| Handlers.Classified | main.py:380-385 | a classifier success is answered with the classifier's verdict, echoing the preset and its threshold; a classifier failure is a 500 wrapping that failure |
| Handlers.FileOutcome | main.py:345-373 | an unknown preset is a 400; with a known preset, a failed image check is answered with that check's own error, and a passed one with the classifier's verdict or its 500; success exactly when all three succeed; every failure is 400, 413 or 500 |
| Handlers.InvalidThresholdFirst | main.py:347-354 | a refused preset gives the same 400 whatever the upload and the classifier |
| Handlers.OversizedUploadRefused | main.py:354-357 | too many bytes is a 413 whatever decoding and classification would give |
| Handlers.OnlyByteLimitIs413 | main.py:345-385 | a 413 occurs exactly for a valid preset and too many bytes |
| Handlers.ModerateImageFile | main.py:341-385 | answers `FileOutcome` with the latency attached; records exactly one sample, an error sample exactly when the answer is an error |
| Handlers.UrlOutcome | main.py:421-446 | a failed download is answered with the download's own error, a failed image check with the check's error, and otherwise the classifier's verdict for the requested preset or its 500; success exactly when all three succeed; failures are 400, 408 or 500, and 408 exactly on timeout |
| Handlers.ModerateImageUrl | main.py:418-458 | answers `UrlOutcome` with the latency attached; records exactly one sample, an error sample exactly when the answer is an error |
| Handlers.ModerateUrlEndpoint | main.py:389-395 | a refused body is a 422 that leaves the metrics unchanged; an omitted threshold is balanced; otherwise the response is `UrlOutcome`'s verdict with the latency attached, or its error, and one sample is recorded |
| Handlers.BlockedUrlNeverFetched | main.py:84-88 | a local URL is a 422 naming the local-host refusal, whatever the fetch |
| Handlers.EndpointsAgreeOnImage | main.py:423-434 | once the same bytes are in hand, both endpoints give the same answer |
| Handlers.FileSuccessReport | main.py:359-373 | a successful upload reports the filled scores, the preset's threshold, the decision and a confidence at least both scores |
| Handlers.UnloadedModelIsServerError | main.py:380-385 | with no model loaded, every image that passes validation is a 500 |

## Left out

- FastAPI routing, response-model serialisation, slowapi rate limiting, the lifespan hook, uvicorn startup and the exception handler registration: framework glue.
- The network fetch (`requests.get`, its timeout, `raise_for_status`): only its outcome is modelled. A status from 400 to 599 counts as an HTTP error.
- PIL decoding and the RGB conversion: modelled as the optional dimensions the image library reports.
- Model loading and inference (torch, transformers, device selection, feature extraction, softmax): the classifier is an input that yields probabilities or fails. A failing `load_model` is not modelled, because it aborts startup.
- Wall-clock time, `uuid4` request ids, uptime and requests per second: the latency is a parameter and the id is not part of the record.
- Logging, and the static `/`, `/ping` and `/status` payloads: there is no decision logic in them.
- Concurrency on the shared `metrics` and `detector` singletons: the model is sequential.
- Validation.ParseHostname: follows `urlsplit` for the characters that delimit the network location and the host, and lower-cases ASCII letters only.
  - It does not model the IPv6 checks newer Python versions apply inside brackets.
  - It does not model the NFKC check on non-ASCII network locations.
  - It does not model Unicode case folding.
- Detector.NormalizeLabel: `lower()` is modelled for ASCII letters only.
- MetricsRecorder.PercentileIndices: `int(n * 0.95)` and `int(n * 0.99)` are modelled as the exact integer quotients `n*95/100` and `n*99/100`, without floating-point rounding.
- Detector.FillMissing: `1.0 - x` is exact real subtraction, not IEEE-754.
- Handlers.ModerateUrlEndpoint: an explicit JSON `null` threshold is not modelled. Only an omitted threshold, which becomes balanced, and a string are.
- Handlers.ModerateUrlEndpoint: the response-model validation of the success body is not modelled.
- Handlers.ModerateImageFile: the response-model validation of the success body (`response_model=ModerationResponse`, main.py:314) is not modelled.
