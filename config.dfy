/** The service's configuration constants (config.py). */
module Config {

  const MaxImageSizeMb: nat := 10
  const MaxImageSizeBytes: nat := MaxImageSizeMb * 1024 * 1024
  /** Declared, but the URL download check uses its own list (which has no `image/bmp`). */
  const AllowedImageTypes: set<string> :=
    {"image/jpeg", "image/jpg", "image/png", "image/gif", "image/webp", "image/bmp"}
  const MaxImageDimension: nat := 4096

  /** The threshold presets: the NSFW probability at or above which an image is flagged. */
  const Thresholds: map<string, real> :=
    map["strict" := 0.3, "balanced" := 0.5, "permissive" := 0.7]

  const DefaultThreshold: string := "balanced"
  const FlagThreshold: real := Thresholds[DefaultThreshold]

  lemma ThresholdPresets()
    ensures Thresholds.Keys == {"strict", "balanced", "permissive"}
    ensures Thresholds["strict"] == 0.3 && Thresholds["balanced"] == 0.5 && Thresholds["permissive"] == 0.7
  {
  }

  /** Stricter presets flag more: the thresholds strictly increase from strict to permissive. */
  lemma ThresholdsIncreasing()
    ensures Thresholds["strict"] < Thresholds["balanced"] < Thresholds["permissive"]
  {
  }

  lemma ThresholdsAreProbabilities()
    ensures forall p :: p in Thresholds ==> 0.0 <= Thresholds[p] <= 1.0
  {
  }

  lemma DefaultPreset()
    ensures DefaultThreshold in Thresholds && FlagThreshold == 0.5
  {
  }

  lemma ImageLimits()
    ensures MaxImageSizeBytes == 10485760 && MaxImageDimension == 4096
  {
  }
}
