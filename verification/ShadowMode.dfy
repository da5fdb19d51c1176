/** The bounded window in which a newly installed version decides but does not act. */
module ShadowMode {
  import opened Basics

  const MAX_DURATION: Duration := 36 * HOUR

  /** The marker the supervisor writes at install. The deadline is fixed at entry. */
  datatype Soak = Soak(version: Version, startedAt: Instant, deadline: Instant)

  datatype Verdict = Enforcing | Shadowing(until: Instant, version: Version)

  function Begin(version: Version, now: Instant): Soak {
    Soak(version, now, now + MAX_DURATION)
  }

  /** Every ambiguity enforces. */
  function VerdictOf(soak: Option<Soak>, running: Version, now: Instant): Verdict {
    if soak.None? then Enforcing
    else if soak.value.version != running then Enforcing
    else if now >= soak.value.deadline then Enforcing
    else if soak.value.deadline - soak.value.startedAt > MAX_DURATION + MINUTE then Enforcing
    else if soak.value.startedAt > now + MINUTE then Enforcing
    else Shadowing(soak.value.deadline, soak.value.version)
  }

  /**
    Whatever a marker says, the instants at which it shadows span at most 36 hours and
    two minutes, and it shadows no other version.
   */
  lemma ShadowIsBounded(soak: Option<Soak>, v: Version, w: Version, s: Instant, t: Instant)
    requires VerdictOf(soak, v, s).Shadowing? && VerdictOf(soak, w, t).Shadowing?
    ensures v == w && Abs(t - s) < MAX_DURATION + 2 * MINUTE
  {
  }

  /** A marker the supervisor writes shadows its version from the install to the deadline. */
  lemma BeginShadowsUntilDeadline(version: Version, start: Instant, running: Version, now: Instant)
    requires start <= now
    ensures VerdictOf(Some(Begin(version, start)), running, now)
            == if running == version && now < start + 36 * HOUR then Shadowing(start + 36 * HOUR, version)
               else Enforcing
  {
  }
}
