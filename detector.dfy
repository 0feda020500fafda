/**
 * The decision policy of the NSFW detector: how classifier probabilities
 * become a prediction map, how the map is completed to the two classes,
 * how a preset threshold turns it into a verdict, and the detector object
 * whose `Predict` builds the map.
 */
module Detector {
  import opened Outcomes
  import opened Errors
  import opened Text
  import Config

  /** Label to probability, as returned by `predict`. */
  type Predictions = map<string, real>

  /** `d.get(key, default)`. */
  function Get(p: Predictions, key: string, default: real): real {
    if key in p then p[key] else default
  }

  predicate InUnit(x: real) {
    0.0 <= x <= 1.0
  }

  predicate AllInUnit(p: Predictions) {
    forall k :: k in p ==> InUnit(p[k])
  }

  // ----- label keys -----

  /** `label.lower().replace(" ", "_")`. */
  function NormalizeLabel(name: string): (r: string)
    ensures |r| == |name|
    ensures forall i :: 0 <= i < |r| ==> r[i] != ' ' && !('A' <= r[i] <= 'Z')
    ensures forall i :: 0 <= i < |r| ==> r[i] == if name[i] == ' ' then '_' else LowerChar(name[i])
  {
    var lowered := Lower(name);
    seq(|lowered|, i requires 0 <= i < |lowered| => if lowered[i] == ' ' then '_' else lowered[i])
  }

  /** Normalising a key that is already normalised changes nothing. */
  lemma NormalizeLabelIdempotent(name: string)
    ensures NormalizeLabel(NormalizeLabel(name)) == NormalizeLabel(name)
  {
    var once := NormalizeLabel(name);
    var twice := NormalizeLabel(once);
    forall i | 0 <= i < |once|
      ensures twice[i] == once[i]
    {
      assert once[i] != ' ' && !('A' <= once[i] <= 'Z');
    }
  }

  /** A label of lower-case letters, digits and underscores is its own key. */
  lemma NormalizePlainLabel(name: string)
    requires forall i :: 0 <= i < |name| ==> name[i] == '_' || 'a' <= name[i] <= 'z' || '0' <= name[i] <= '9'
    ensures NormalizeLabel(name) == name
  {
  }

  /** The key for the probability at `idx`: its mapped label normalised, or `class_<idx>`. */
  function LabelKey(labels: map<nat, string>, idx: nat): string {
    if idx in labels then NormalizeLabel(labels[idx]) else "class_" + NatToDecimal(idx)
  }

  /**
   * `predict` normalises the fallback `class_<idx>` too; that changes nothing,
   * so `LabelKey` is the key `predict` computes for every index.
   */
  lemma LabelKeyIsNormalized(labels: map<nat, string>, idx: nat)
    ensures LabelKey(labels, idx) == NormalizeLabel(if idx in labels then labels[idx] else "class_" + NatToDecimal(idx))
  {
    if idx !in labels {
      NormalizePlainLabel("class_" + NatToDecimal(idx));
    }
  }

  /** The keys of the first `n` probabilities, in enumeration order. */
  function LabelKeys(labels: map<nat, string>, n: nat): (keys: seq<string>)
    ensures |keys| == n
    ensures forall i :: 0 <= i < n ==> keys[i] == LabelKey(labels, i)
  {
    seq(n, i requires 0 <= i < n => LabelKey(labels, i))
  }

  /**
   * Storing `probs[i]` under `keys[i]` for each index in turn: a later
   * index overwrites an earlier one with the same key.
   */
  function Store(keys: seq<string>, probs: seq<real>): (results: Predictions)
    requires |keys| == |probs|
    ensures forall k :: k in results ==> results[k] in probs
  {
    if probs == [] then map[]
    else
      var n := |probs| - 1;
      var earlier := Store(keys[..n], probs[..n]);
      assert forall k :: k in earlier ==> earlier[k] in probs by {
        forall k | k in earlier ensures earlier[k] in probs {
          assert earlier[k] in probs[..n];
        }
      }
      earlier[keys[n] := probs[n]]
  }

  /** Every index leaves its key in the map. */
  lemma {:induction false} StoreHasKey(keys: seq<string>, probs: seq<real>, i: nat)
    requires |keys| == |probs| && i < |probs|
    ensures keys[i] in Store(keys, probs)
  {
    var n := |probs| - 1;
    if i < n {
      StoreHasKey(keys[..n], probs[..n], i);
    }
  }

  /** Every key in the map belongs to some index. */
  lemma {:induction false} StoreOnlyKeys(keys: seq<string>, probs: seq<real>, k: string)
    requires |keys| == |probs| && k in Store(keys, probs)
    ensures k in keys
  {
    var n := |probs| - 1;
    if k != keys[n] {
      StoreOnlyKeys(keys[..n], probs[..n], k);
    }
  }

  /** The value stored under a key is the probability of the LAST index with that key. */
  lemma {:induction false} StoreLastWins(keys: seq<string>, probs: seq<real>, i: nat)
    requires |keys| == |probs| && i < |probs|
    requires forall j :: i < j < |keys| ==> keys[j] != keys[i]
    ensures keys[i] in Store(keys, probs) && Store(keys, probs)[keys[i]] == probs[i]
  {
    var n := |probs| - 1;
    if i < n {
      StoreHasKey(keys[..n], probs[..n], i);
      StoreLastWins(keys[..n], probs[..n], i);
    }
  }

  /** The map the enumeration loop of `predict` builds. */
  function Collect(labels: map<nat, string>, probs: seq<real>): (results: Predictions)
    ensures forall k :: k in results ==> results[k] in probs
  {
    Store(LabelKeys(labels, |probs|), probs)
  }

  /** The keys of the collected map are exactly the keys of the indices. */
  lemma CollectKeys(labels: map<nat, string>, probs: seq<real>)
    ensures forall i :: 0 <= i < |probs| ==> LabelKey(labels, i) in Collect(labels, probs)
    ensures forall k :: k in Collect(labels, probs) ==> exists i :: 0 <= i < |probs| && LabelKey(labels, i) == k
  {
    var keys := LabelKeys(labels, |probs|);
    forall i | 0 <= i < |probs| ensures LabelKey(labels, i) in Collect(labels, probs) {
      StoreHasKey(keys, probs, i);
    }
    forall k | k in Collect(labels, probs) ensures exists i :: 0 <= i < |probs| && LabelKey(labels, i) == k {
      StoreOnlyKeys(keys, probs, k);
      var i :| 0 <= i < |keys| && keys[i] == k;
    }
  }

  /** When labels collide, the later probability is the one reported. */
  lemma CollectLastWins(labels: map<nat, string>, probs: seq<real>, i: nat)
    requires i < |probs|
    requires forall j :: i < j < |probs| ==> LabelKey(labels, j) != LabelKey(labels, i)
    ensures LabelKey(labels, i) in Collect(labels, probs) && Collect(labels, probs)[LabelKey(labels, i)] == probs[i]
  {
    var keys := LabelKeys(labels, |probs|);
    forall j | i < j < |keys|
      ensures keys[j] != keys[i]
    {
      assert keys[j] == LabelKey(labels, j) && keys[i] == LabelKey(labels, i);
    }
    StoreLastWins(keys, probs, i);
  }

  /** Probabilities in [0, 1] give a map whose values are in [0, 1]. */
  lemma CollectInUnit(labels: map<nat, string>, probs: seq<real>)
    requires forall i :: 0 <= i < |probs| ==> InUnit(probs[i])
    ensures AllInUnit(Collect(labels, probs))
  {
    var results := Collect(labels, probs);
    forall k | k in results ensures InUnit(results[k]) {
      var v := results[k];
      assert v in probs;
      var i :| 0 <= i < |probs| && probs[i] == v;
    }
  }

  // ----- completing the two classes -----

  /**
   * The fill step after the loop: `normal` is added as the complement of
   * `nsfw` (0.0 when absent), then `nsfw` as the complement of `normal`.
   */
  function FillMissing(results: Predictions): (filled: Predictions)
    ensures filled.Keys == results.Keys + {"normal", "nsfw"}
    ensures forall k :: k in results ==> filled[k] == results[k]
    ensures "nsfw" in results && "normal" !in results ==> filled["normal"] == 1.0 - results["nsfw"]
    ensures "normal" in results && "nsfw" !in results ==> filled["nsfw"] == 1.0 - results["normal"]
    ensures "normal" !in results && "nsfw" !in results ==> filled["normal"] == 1.0 && filled["nsfw"] == 0.0
    ensures AllInUnit(results) ==> AllInUnit(filled)
  {
    var withNormal := if "normal" in results then results else results["normal" := 1.0 - Get(results, "nsfw", 0.0)];
    if "nsfw" in withNormal then withNormal else withNormal["nsfw" := 1.0 - Get(withNormal, "normal", 0.0)]
  }

  /** Filling a map that already holds both classes leaves it unchanged. */
  lemma FillMissingIdempotent(results: Predictions)
    ensures FillMissing(FillMissing(results)) == FillMissing(results)
  {
  }

  // ----- the threshold decision -----

  /** `THRESHOLDS.get(preset, THRESHOLDS["balanced"])`. */
  function ThresholdFor(preset: string): (t: real)
    ensures preset in Config.Thresholds ==> t == Config.Thresholds[preset]
    ensures preset !in Config.Thresholds ==> t == 0.5
    ensures 0.3 <= t <= 0.7
  {
    if preset in Config.Thresholds then Config.Thresholds[preset] else Config.Thresholds["balanced"]
  }

  /** `is_nsfw`: the `nsfw` score, 0.0 when absent, reaches the threshold (inclusive). */
  function IsNsfw(predictions: Predictions, preset: string): (flagged: bool)
    ensures preset in Config.Thresholds ==> (flagged <==> Get(predictions, "nsfw", 0.0) >= Config.Thresholds[preset])
    ensures preset !in Config.Thresholds ==> (flagged <==> Get(predictions, "nsfw", 0.0) >= Config.Thresholds["balanced"])
    ensures "nsfw" !in predictions ==> !flagged
  {
    Get(predictions, "nsfw", 0.0) >= ThresholdFor(preset)
  }

  /** Flagged under a stricter preset whenever flagged under a more permissive one. */
  lemma PresetsNested(predictions: Predictions)
    ensures IsNsfw(predictions, "permissive") ==> IsNsfw(predictions, "balanced")
    ensures IsNsfw(predictions, "balanced") ==> IsNsfw(predictions, "strict")
  {
    Config.ThresholdPresets();
  }

  /** A score exactly at the threshold is flagged; one just below it is not. */
  lemma ThresholdInclusive(predictions: Predictions, preset: string)
    requires "nsfw" in predictions
    ensures predictions["nsfw"] == ThresholdFor(preset) ==> IsNsfw(predictions, preset)
    ensures predictions["nsfw"] < ThresholdFor(preset) ==> !IsNsfw(predictions, preset)
  {
  }

  /** An unknown preset decides exactly as `balanced` does. */
  lemma UnknownPresetIsBalanced(predictions: Predictions, preset: string)
    requires preset !in Config.Thresholds
    ensures IsNsfw(predictions, preset) == IsNsfw(predictions, "balanced")
    ensures ThresholdFor(preset) == ThresholdFor(Config.DefaultThreshold)
  {
  }

  /** Without an `nsfw` score nothing is flagged, under any preset. */
  lemma MissingScoreNeverFlagged(predictions: Predictions, preset: string)
    requires "nsfw" !in predictions
    ensures !IsNsfw(predictions, preset)
  {
  }

  // ----- confidence -----

  predicate IsMaximum(m: real, s: set<real>) {
    m in s && forall x :: x in s ==> x <= m
  }

  /** Every non-empty finite set of reals has a maximum. */
  lemma {:induction false} MaximumExists(s: set<real>)
    requires s != {}
    ensures exists m :: IsMaximum(m, s)
    decreases |s|
  {
    if forall x :: x !in s {
      assert false;
    }
    var y :| y in s;
    if s == {y} {
      assert IsMaximum(y, s);
    } else {
      var rest := s - {y};
      MaximumExists(rest);
      var m :| IsMaximum(m, rest);
      assert forall x :: x in s ==> x == y || x in rest;
      if y <= m {
        assert IsMaximum(m, s);
      } else {
        assert IsMaximum(y, s);
      }
    }
  }

  /** `max(s)`. */
  function MaxOf(s: set<real>): (m: real)
    requires s != {}
    ensures IsMaximum(m, s)
  {
    MaximumExists(s);
    var m :| IsMaximum(m, s);
    m
  }

  /** `get_confidence`: the largest prediction value, over every label. */
  function GetConfidence(predictions: Predictions): (c: real)
    requires predictions != map[]
    ensures exists k :: k in predictions && predictions[k] == c
    ensures forall k :: k in predictions ==> predictions[k] <= c
  {
    var k :| k in predictions;
    assert predictions[k] in predictions.Values;
    var c := MaxOf(predictions.Values);
    assert forall k :: k in predictions ==> predictions[k] in predictions.Values;
    c
  }

  /** For the two filled classes alone, confidence is the score of the more likely class. */
  lemma ConfidenceOfTwoClasses(predictions: Predictions)
    requires predictions.Keys == {"normal", "nsfw"}
    ensures GetConfidence(predictions) ==
      if predictions["nsfw"] >= predictions["normal"] then predictions["nsfw"] else predictions["normal"]
  {
    var c := GetConfidence(predictions);
    var k :| k in predictions && predictions[k] == c;
    assert k == "normal" || k == "nsfw";
  }

  // ----- predict_nsfw -----

  /** The dictionary `predict_nsfw` returns. */
  datatype Verdict = Verdict(
    nsfw: real,
    normal: real,
    isNsfw: bool,
    confidence: real,
    thresholdUsed: real,
    thresholdPreset: string)

  /** `predict_nsfw` once the predictions are available. */
  function Assemble(predictions: Predictions, preset: string): (v: Verdict)
    requires predictions != map[]
    ensures v.thresholdPreset == preset
    ensures v.thresholdUsed == ThresholdFor(preset)
    ensures v.isNsfw <==> v.nsfw >= v.thresholdUsed
    ensures v.nsfw == Get(predictions, "nsfw", 0.0) && v.normal == Get(predictions, "normal", 0.0)
    ensures forall k :: k in predictions ==> predictions[k] <= v.confidence
    ensures exists k :: k in predictions && predictions[k] == v.confidence
  {
    Verdict(
      Get(predictions, "nsfw", 0.0),
      Get(predictions, "normal", 0.0),
      IsNsfw(predictions, preset),
      GetConfidence(predictions),
      ThresholdFor(preset),
      preset)
  }

  /** On filled predictions the confidence covers both reported scores. */
  lemma AssembleFilled(results: Predictions, preset: string)
    ensures var v := Assemble(FillMissing(results), preset);
      v.nsfw <= v.confidence && v.normal <= v.confidence
  {
  }

  /** Scores of 0.6 and 0.4 under `balanced`: flagged, with confidence 0.6 against 0.5. */
  lemma BalancedVerdictExample(p: Predictions, preset: string)
    requires p == map["nsfw" := 0.6, "normal" := 0.4] && preset == "balanced"
    ensures "nsfw" in p && Assemble(p, preset) == Verdict(0.6, 0.4, true, 0.6, 0.5, preset)
  {
    ConfidenceOfTwoClasses(p);
  }

  /** Only an `nsfw` score of 0.9: `normal` is filled in as 0.1 and the image is flagged. */
  lemma FilledVerdictExample(p: Predictions, preset: string)
    requires p == map["nsfw" := 0.9] && preset == "balanced"
    ensures FillMissing(p) == map["nsfw" := 0.9, "normal" := 0.1]
    ensures Assemble(FillMissing(p), preset).isNsfw
    ensures Assemble(FillMissing(p), preset).confidence == 0.9
  {
    ConfidenceOfTwoClasses(FillMissing(p));
  }

  // ----- the detector object -----

  /** What the classifier yields for an image: the softmax probabilities, or a failure. */
  datatype Inference = InferenceError | Probabilities(probs: seq<real>)

  /** The outcome of `predict` for a detector in the given state. */
  function PredictOutcome(loaded: bool, labels: map<nat, string>, inference: Inference): (r: Result<Predictions, PredictError>)
    ensures !loaded ==> r == Err(ModelNotLoaded)
    ensures loaded && inference.InferenceError? ==> r == Err(InferenceFailed)
    ensures r.Ok? <==> loaded && inference.Probabilities?
    ensures r.Ok? ==> "normal" in r.value && "nsfw" in r.value
    ensures r.Ok? ==> forall i :: 0 <= i < |inference.probs| ==> LabelKey(labels, i) in r.value
    ensures r.Ok? ==> r.value == FillMissing(Collect(labels, inference.probs))
  {
    if !loaded then Err(ModelNotLoaded)
    else match inference
      case InferenceError => Err(InferenceFailed)
      case Probabilities(probs) =>
        var collected := Collect(labels, probs);
        CollectKeys(labels, probs);
        Ok(FillMissing(collected))
  }

  /** `NSFWDetector`: `loaded` stands for the model being set, `labels` for `id2label`. */
  class NsfwDetector {
    var loaded: bool
    var labels: map<nat, string>

    constructor()
      ensures !loaded && labels == map[]
    {
      loaded := false;
      labels := map[];
    }

    /** `load_model`, given the label mapping the loaded model carries. */
    method LoadModel(id2label: map<nat, string>)
      modifies this
      ensures loaded && labels == id2label
    {
      loaded := true;
      labels := id2label;
    }

    /** `predict`: refuse without a model, otherwise enumerate the probabilities and fill. */
    method Predict(inference: Inference) returns (r: Result<Predictions, PredictError>)
      ensures r == PredictOutcome(loaded, labels, inference)
    {
      if !loaded {
        return Err(ModelNotLoaded);
      }
      if inference.InferenceError? {
        return Err(InferenceFailed);
      }
      var results := Enumerate(inference.probs);
      ghost var filled := FillMissing(results);
      if "normal" !in results {
        results := results["normal" := 1.0 - Get(results, "nsfw", 0.0)];
      }
      if "nsfw" !in results {
        results := results["nsfw" := 1.0 - Get(results, "normal", 0.0)];
      }
      assert results == filled;
      return Ok(results);
    }

    /** The `for idx, prob in enumerate(probs)` loop of `predict`. */
    method Enumerate(probs: seq<real>) returns (results: Predictions)
      ensures results == Collect(labels, probs)
    {
      ghost var keys := LabelKeys(labels, |probs|);
      results := map[];
      for idx := 0 to |probs|
        invariant results == Store(keys[..idx], probs[..idx])
      {
        assert keys[..idx + 1][..idx] == keys[..idx];
        assert probs[..idx + 1][..idx] == probs[..idx];
        var name := if idx in labels then labels[idx] else "class_" + NatToDecimal(idx);
        name := NormalizeLabel(name);
        LabelKeyIsNormalized(labels, idx);
        results := results[name := probs[idx]];
      }
      assert keys[..|probs|] == keys && probs[..|probs|] == probs;
    }
  }

  /** `predict_nsfw` on a given detector. */
  function ClassifyOutcome(loaded: bool, labels: map<nat, string>, inference: Inference, preset: string): (r: Result<Verdict, PredictError>)
    ensures r.Ok? <==> PredictOutcome(loaded, labels, inference).Ok?
    ensures r.Err? ==> r.error == PredictOutcome(loaded, labels, inference).error
    ensures r.Ok? ==> r.value == Assemble(PredictOutcome(loaded, labels, inference).value, preset)
  {
    match PredictOutcome(loaded, labels, inference)
    case Err(e) => Err(e)
    case Ok(p) => Ok(Assemble(p, preset))
  }

  /** `predict_nsfw`: predict, then decide and report. */
  method PredictNsfw(detector: NsfwDetector, inference: Inference, preset: string) returns (r: Result<Verdict, PredictError>)
    ensures r == ClassifyOutcome(detector.loaded, detector.labels, inference, preset)
    ensures r.Ok? ==> r.value.thresholdPreset == preset && r.value.thresholdUsed == ThresholdFor(preset)
  {
    var predictions := detector.Predict(inference);
    if predictions.Err? {
      return Err(predictions.error);
    }
    r := Ok(Assemble(predictions.value, preset));
  }
}
