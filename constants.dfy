/**
 * Display-time and concurrency constants and the duration normaliser
 * (lib/constants.ts). Durations are in seconds.
 */
module Constants {
  import opened Wrappers

  const DurationMin: real := 3.0
  const DurationMax: real := 10.0
  const DurationDefault: real := 4.0

  const MinConcurrent: nat := 3
  const MaxConcurrent: nat := 6
  const MaxConcurrentLarge: nat := 10

  function Max(a: real, b: real): real { if a >= b then a else b }
  function Min(a: real, b: real): real { if a <= b then a else b }

  /** `normalizeDuration`: `None` stands for `null`/`undefined`; a falsy
      (zero) or non-positive duration gives the default, any other is
      clamped into [DurationMin, DurationMax]. The result is always in range. */
  function NormalizeDuration(duration: Option<real>): (r: real)
    ensures DurationMin <= r <= DurationMax
  {
    if duration.None? || duration.value == 0.0 || duration.value <= 0.0 then DurationDefault
    else Max(DurationMin, Min(duration.value, DurationMax))
  }

  /** Absent, zero and negative durations all give the default of 4 seconds. */
  lemma NormalizeDefault(duration: Option<real>)
    requires duration.None? || duration.value <= 0.0
    ensures NormalizeDuration(duration) == DurationDefault
  {
  }

  /** A positive duration is kept when in range, raised to 3 below it and lowered to 10 above it. */
  lemma NormalizeClamp(d: real)
    requires d > 0.0
    ensures DurationMin <= d <= DurationMax ==> NormalizeDuration(Some(d)) == d
    ensures d < DurationMin ==> NormalizeDuration(Some(d)) == DurationMin
    ensures d > DurationMax ==> NormalizeDuration(Some(d)) == DurationMax
  {
  }

  /** Normalising a normalised duration changes nothing. */
  lemma NormalizeIdempotent(duration: Option<real>)
    ensures NormalizeDuration(Some(NormalizeDuration(duration))) == NormalizeDuration(duration)
  {
  }

  /** The concurrency caps are ordered, and the default duration lies in range. */
  lemma ConstantsOrdered()
    ensures MinConcurrent <= MaxConcurrent <= MaxConcurrentLarge
    ensures DurationMin <= DurationDefault <= DurationMax
  {
  }
}
