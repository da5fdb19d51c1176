/**
  The two wall-clock resolvers over one zone with one offset change: the agent's,
  which snaps a skipped time forward and reads an ambiguous one toward enforcement,
  and the server's two-pass one.
 */
module ZonedTime {
  import opened Basics
  import opened PolicyDocument
  import BP = BedtimePredicate
  import Restriction

  /** Local time is UTC plus `before` until the change, plus `after` from it on. */
  datatype Zone = Zone(before: Duration, after: Duration, change: Instant) {
    function OffsetAt(t: Instant): Duration {
      if t < change then before else after
    }

    function DayOf(t: Instant): Day {
      (t + OffsetAt(t)) / DAY
    }

    /** What a local clock shows: milliseconds since its midnight. */
    function ClockAt(t: Instant): Duration {
      (t + OffsetAt(t)) % DAY
    }
  }

  /** The change moves local time by whole minutes, and by less than half a day. */
  predicate Plausible(z: Zone) {
    0 < Abs(z.after - z.before) < 12 * HOUR && (z.after - z.before) % MINUTE == 0
  }

  /** A wall-clock time read as if it were UTC. */
  function Naive(day: Day, minute: Minute): Instant {
    day * DAY + minute * MINUTE
  }

  /** The reading under the offset before the change exists. */
  predicate ExistsBefore(z: Zone, day: Day, minute: Minute) {
    Naive(day, minute) - z.before < z.change
  }

  predicate ExistsAfter(z: Zone, day: Day, minute: Minute) {
    z.change <= Naive(day, minute) - z.after
  }

  predicate InGap(z: Zone, day: Day, minute: Minute) {
    !ExistsBefore(z, day, minute) && !ExistsAfter(z, day, minute)
  }

  predicate Ambiguous(z: Zone, day: Day, minute: Minute) {
    ExistsBefore(z, day, minute) && ExistsAfter(z, day, minute)
  }

  function FirstOccurrence(z: Zone, day: Day, minute: Minute): Instant {
    if ExistsBefore(z, day, minute) then Naive(day, minute) - z.before else Naive(day, minute) - z.after
  }

  /**
    The agent. Skipped: the first instant that exists. Ambiguous: the first occurrence,
    and for an end the instant an hour on when the clock then shows the same time.
   */
  function AgentInstant(z: Zone, day: Day, minute: Minute, kind: BoundaryKind): Instant {
    if InGap(z, day, minute) then z.change
    else
      var candidate := FirstOccurrence(z, day, minute);
      if kind.RestrictedUntil? && z.ClockAt(candidate + HOUR) / MINUTE == minute then candidate + HOUR
      else candidate
  }

  /** The server: guess the offset at the naive instant, then re-read it once. */
  function ServerInstant(z: Zone, day: Day, minute: Minute): Instant {
    var naive := Naive(day, minute);
    var firstPass := naive - z.OffsetAt(naive);
    naive - z.OffsetAt(firstPass)
  }

  function AgentResolver(z: Zone): Resolver {
    Resolver((d: Day, m: Minute, k: BoundaryKind) => AgentInstant(z, d, m, k), (t: Instant) => z.DayOf(t))
  }

  function ServerResolver(z: Zone): Restriction.ServerZone {
    Restriction.ServerZone((d: Day, m: Minute) => ServerInstant(z, d, m), (t: Instant) => z.DayOf(t))
  }

  // ---- The agent's resolver keeps days in order --------------------------------------------

  /** The clock falling back does not step back over a midnight. */
  predicate KeepsItsDay(z: Zone) {
    z.DayOf(z.change - 1) <= z.DayOf(z.change)
  }

  lemma DaysAdvance(z: Zone, t: Instant, u: Instant)
    requires KeepsItsDay(z) && t <= u
    ensures z.DayOf(t) <= z.DayOf(u)
  {
  }

  lemma DayIs(z: Zone, t: Instant, day: Day)
    requires day * DAY <= t + z.OffsetAt(t) < (day + 1) * DAY
    ensures z.DayOf(t) == day
  {
  }

  /** An hour on, the clock shows the same minute only across a change of exactly an hour back. */
  lemma RepeatIsOneHour(z: Zone, day: Day, minute: Minute)
    requires Plausible(z) && !InGap(z, day, minute)
    requires z.ClockAt(FirstOccurrence(z, day, minute) + HOUR) / MINUTE == minute
    ensures z.before - z.after == HOUR && Ambiguous(z, day, minute)
    ensures FirstOccurrence(z, day, minute) + HOUR == Naive(day, minute) - z.after
  {
    var candidate := FirstOccurrence(z, day, minute);
    var later := candidate + HOUR;
    var local := later + z.OffsetAt(later);
    assert candidate + z.OffsetAt(candidate) == Naive(day, minute);
    var d := local / DAY;
    assert local == d * DAY + z.ClockAt(later);
    assert minute * MINUTE <= z.ClockAt(later) < minute * MINUTE + MINUTE;
    assert -12 * HOUR < local - Naive(day, minute) < 14 * HOUR;
    assert d == day;
    assert 0 <= HOUR + (z.OffsetAt(later) - z.OffsetAt(candidate)) < MINUTE;
  }

  lemma InstantIsOnItsDay(z: Zone, day: Day, minute: Minute, kind: BoundaryKind)
    requires Plausible(z) && !InGap(z, day, minute)
    ensures z.DayOf(AgentInstant(z, day, minute, kind)) == day
  {
    var candidate := FirstOccurrence(z, day, minute);
    DayIs(z, candidate, day);
    if AgentInstant(z, day, minute, kind) != candidate {
      RepeatIsOneHour(z, day, minute);
      DayIs(z, candidate + HOUR, day);
    }
  }

  /** A skipped time lies on the day of the change's far side or the one before. */
  lemma GapSurroundsChange(z: Zone, day: Day, minute: Minute, t: Instant)
    requires Plausible(z) && InGap(z, day, minute)
    ensures z.DayOf(t) < day ==> t < z.change
    ensures day < z.DayOf(t) ==> z.change <= t
  {
  }

  /** Every zone whose change keeps its day resolves times in the order the predicate needs. */
  lemma AgentResolverIsOrdered(z: Zone)
    requires Plausible(z) && KeepsItsDay(z)
    ensures Ordered(AgentResolver(z))
  {
    var zone := AgentResolver(z);
    forall d: Day, m: Minute, k: BoundaryKind, t: Instant
      ensures zone.dayOf(t) < d ==> t < zone.instant(d, m, k)
      ensures d < zone.dayOf(t) ==> zone.instant(d, m, k) <= t
    {
      if InGap(z, d, m) {
        GapSurroundsChange(z, d, m, t);
      } else {
        InstantIsOnItsDay(z, d, m, k);
        if t <= AgentInstant(z, d, m, k) {
          DaysAdvance(z, t, AgentInstant(z, d, m, k));
        } else {
          DaysAdvance(z, AgentInstant(z, d, m, k), t);
        }
      }
    }
    forall d: Day ensures zone.dayOf(zone.instant(d, 0, RestrictedFrom)) == d {
      if InGap(z, d, 0) {
        DayIs(z, z.change, d);
      } else {
        InstantIsOnItsDay(z, d, 0, RestrictedFrom);
      }
    }
  }

  // ---- Where the two resolvers part ----------------------------------------------------------

  /**
    Where the server's two passes land. Skipped and ambiguous times both go by whether
    the time, read as UTC, is before the change: only then does a skipped time land
    before the gap and an ambiguous one take its earlier occurrence.
   */
  lemma ServerReading(z: Zone, day: Day, minute: Minute)
    requires Plausible(z)
    ensures var naive, r := Naive(day, minute), ServerInstant(z, day, minute);
            && (InGap(z, day, minute) ==> (r < z.change <==> naive < z.change))
            && (Ambiguous(z, day, minute) ==>
                  r == if naive < z.change then naive - z.before else naive - z.after)
            && (ExistsBefore(z, day, minute) != ExistsAfter(z, day, minute) ==>
                  r == FirstOccurrence(z, day, minute))
  {
  }

  /** The server and the agent name the same instant, told from the time and the zone alone. */
  predicate ReadAlike(z: Zone, day: Day, minute: Minute, kind: BoundaryKind) {
    var naive := Naive(day, minute);
    if InGap(z, day, minute) then
      naive >= z.change && naive - z.before == z.change
    else if Ambiguous(z, day, minute) then
      naive >= z.change <==> (kind.RestrictedUntil? && z.before - z.after == HOUR)
    else
      true
  }

  lemma AgentPicksLaterExactly(z: Zone, day: Day, minute: Minute)
    requires Plausible(z) && !InGap(z, day, minute)
    ensures AgentInstant(z, day, minute, RestrictedUntil) != FirstOccurrence(z, day, minute)
            <==> Ambiguous(z, day, minute) && z.before - z.after == HOUR
  {
    var candidate := FirstOccurrence(z, day, minute);
    var later := candidate + HOUR;
    if Ambiguous(z, day, minute) && z.before - z.after == HOUR {
      assert later + z.OffsetAt(later) == day * DAY + minute * MINUTE;
      DayIs(z, later, day);
    }
    if z.ClockAt(later) / MINUTE == minute {
      RepeatIsOneHour(z, day, minute);
    }
  }

  /** Exactly when the two resolvers agree. */
  lemma ResolversAgreeExactly(z: Zone, day: Day, minute: Minute, kind: BoundaryKind)
    requires Plausible(z)
    ensures AgentInstant(z, day, minute, kind) == ServerInstant(z, day, minute)
            <==> ReadAlike(z, day, minute, kind)
  {
    ServerReading(z, day, minute);
    if !InGap(z, day, minute) {
      AgentPicksLaterExactly(z, day, minute);
    }
  }

  /**
    East of Greenwich the server takes the later occurrence: in a zone two hours ahead
    falling back to one, an expiry at 02:30 resolves an hour late.
   */
  lemma ServerTakesLaterOccurrenceEast()
    ensures var z := Zone(2 * HOUR, HOUR, HOUR);
            && Plausible(z) && Ambiguous(z, 0, 150)
            && ServerInstant(z, 0, 150) == AgentInstant(z, 0, 150, RestrictedFrom) + HOUR
  {
  }

  /** A half-hour fall-back is not seen as a repeat, so an end keeps its first occurrence. */
  lemma HalfHourFallBackEndsEarly()
    ensures var z := Zone(11 * HOUR, 10 * HOUR + 30 * MINUTE, 15 * HOUR);
            && Plausible(z) && Ambiguous(z, 1, 105)
            && AgentInstant(z, 1, 105, RestrictedUntil) == Naive(1, 105) - z.before < Naive(1, 105) - z.after
  {
  }

  /** The mirror theorem in a concrete zone: every boundary near the instant reads alike. */
  lemma ServerMirrorsAgentInZone(z: Zone, doc: Document, at: Instant)
    requires Plausible(z) && KeepsItsDay(z)
    requires forall w, d :: w in doc.windows && z.DayOf(at) - 2 <= d <= z.DayOf(at) && RunsOn(w, d) ==>
               && ReadAlike(z, d, w.from.value, RestrictedFrom)
               && ReadAlike(z, Restriction.UntilDay(w, d), w.until.value, RestrictedUntil)
    ensures var e := BP.EvaluationOf(AgentResolver(z), doc, at);
            var r := Restriction.EnforcedAt(ServerResolver(z), doc, at);
            && (r.Some? <==> e.IsRestricted())
            && (r.Some? ==> e.activeWindow == Some(r.value.window) && e.restrictedUntil == Some(r.value.span.until))
  {
    var agent, server := AgentResolver(z), ServerResolver(z);
    AgentResolverIsOrdered(z);
    forall w, d | w in doc.windows && d in Restriction.DaysLookedAt(server, at)
      ensures Restriction.SameBoundaries(agent, server, w, d)
    {
      if RunsOn(w, d) {
        ResolversAgreeExactly(z, d, w.from.value, RestrictedFrom);
        ResolversAgreeExactly(z, Restriction.UntilDay(w, d), w.until.value, RestrictedUntil);
      }
    }
    Restriction.ServerMirrorsAgent(agent, server, doc, at);
  }

  // ---- When two days suffice -------------------------------------------------------------------

  /** Whatever restricts at an instant, by any document, is of that instant's day or the one before. */
  ghost predicate TwoDaysSuffice(z: Zone) {
    forall doc: Document, now, w, d ::
      w in doc.windows && BP.Restricts(AgentResolver(z), doc, now, w, d) ==>
        d in BP.DaysConsidered(AgentResolver(z), now)
  }

  /** Midnight to 23:59, every day. */
  const ALL_DAY := Window(1, {0, 1, 2, 3, 4, 5, 6}, Some(0), Some(1439), LockOnly, 300, [])

  /** At a change back over midnight, all of the day it steps out of still lies ahead. */
  lemma SteppedOutOfDay(z: Zone)
    requires Plausible(z) && !KeepsItsDay(z)
    ensures var day := z.DayOf(z.change - 1);
            AgentInstant(z, day, 0, RestrictedFrom) < z.change < AgentInstant(z, day, 1439, RestrictedUntil)
  {
    var day := z.DayOf(z.change - 1);
    assert day * DAY <= z.change - 1 + z.before < day * DAY + DAY;
    assert z.change + z.after < day * DAY;
  }

  lemma FallBackHidesAWindow(z: Zone)
    requires Plausible(z) && !KeepsItsDay(z)
    ensures var day := z.DayOf(z.change - 1);
            && BP.Restricts(AgentResolver(z), Document([ALL_DAY], []), z.change, ALL_DAY, day)
            && day !in BP.DaysConsidered(AgentResolver(z), z.change)
  {
    var zone, day := AgentResolver(z), z.DayOf(z.change - 1);
    SteppedOutOfDay(z);
    hide AgentInstant, Plausible;
    assert BP.ResolveSpan(zone, ALL_DAY, day)
        == Some(BP.Span(AgentInstant(z, day, 0, RestrictedFrom), AgentInstant(z, day, 1439, RestrictedUntil), []));
  }

  /** Two days suffice in a zone, for every document and instant, if and only if its change keeps its day. */
  lemma TwoDaysSufficeExactly(z: Zone)
    requires Plausible(z)
    ensures TwoDaysSuffice(z) <==> KeepsItsDay(z)
  {
    hide Plausible, KeepsItsDay, Ordered, BP.Restricts, BP.DaysConsidered;
    if KeepsItsDay(z) {
      AgentResolverIsOrdered(z);
      forall doc: Document, now, w, d | w in doc.windows && BP.Restricts(AgentResolver(z), doc, now, w, d)
        ensures d in BP.DaysConsidered(AgentResolver(z), now)
      {
        BP.TwoDaysSuffice(AgentResolver(z), doc, now, w, d);
      }
    } else {
      FallBackHidesAWindow(z);
      assert ALL_DAY in Document([ALL_DAY], []).windows;
    }
  }

  // ---- The agent's walk to the far side of a gap ---------------------------------------------

  /**
    Walk forward a minute at a time to the first probe whose offset differs from the one
    a minute before the start. From up to 239 minutes short of the change it stops on the
    first probe at or past it; from further back it gives up and stays where it was.
   */
  method FirstInstantAfterGap(z: Zone, start: Instant) returns (r: Instant)
    requires z.before != z.after
    ensures start < z.change <= start + 239 * MINUTE ==>
              z.change <= r < z.change + MINUTE && (r - start) % MINUTE == 0
    ensures z.change <= start || start + 239 * MINUTE < z.change ==> r == start
  {
    var before := z.OffsetAt(start - MINUTE);
    var probe := start;
    for n := 0 to 240
      invariant probe == start + n * MINUTE
      invariant start < z.change && n > 0 ==> probe - MINUTE < z.change
      invariant z.change <= start && n > 0 ==> z.change <= start - MINUTE
    {
      if z.OffsetAt(probe) != before {
        return probe;
      }
      probe := probe + MINUTE;
    }
    return start;
  }
}
