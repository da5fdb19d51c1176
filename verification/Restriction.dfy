/**
  The server's own answer to "was this moment restricted?", written independently of
  the agent's predicate: three days instead of two, a flag for suspensions, and
  clamping by minimum. Only the enforced phase is modelled.
 */
module Restriction {
  import opened Basics
  import opened PolicyDocument
  import BP = BedtimePredicate

  /** The server resolves a wall-clock time one way, whichever boundary it is. */
  datatype ServerZone = ServerZone(instant: (Day, Minute) -> Instant, dayOf: Instant -> Day)

  /** Where the relaxation loop stands: the moved start, and whether the night is off. */
  datatype Relaxation = Relaxation(from: Instant, suspended: bool) {
    function EffectiveFrom(until: Instant): Instant {
      if suspended then until else from
    }
  }

  function RelaxedBy(
      overrides: seq<Override>, from: Instant, until: Instant, window: Window, day: Day, at: Instant): Relaxation
  {
    if overrides == [] then Relaxation(from, false)
    else
      var r := RelaxedBy(overrides[..|overrides| - 1], from, until, window, day, at);
      var o := overrides[|overrides| - 1];
      if !BP.Live(o, window, day, at) then r
      else if o.kind.Suspend? then r.(suspended := true)
      else if o.kind.Extend? && o.minutes.Some? && o.minutes.value > 0 then
        r.(from := Min(r.from + o.minutes.value * MINUTE, until))
      else r
  }

  function UntilDay(window: Window, day: Day): Day
    requires window.from.Some? && window.until.Some?
  {
    if Wraps(window) then day + 1 else day
  }

  function EnforcedOn(zone: ServerZone, doc: Document, at: Instant, window: Window, day: Day): seq<BP.Hit> {
    if !RunsOn(window, day) then []
    else
      var until := zone.instant(UntilDay(window, day), window.until.value);
      var r := RelaxedBy(doc.overrides, zone.instant(day, window.from.value), until, window, day, at);
      if r.EffectiveFrom(until) <= at < until
      then [BP.Hit(window, day, BP.Span(r.EffectiveFrom(until), until, []))]
      else []
  }

  function EnforcedHits(zone: ServerZone, doc: Document, at: Instant, days: seq<Day>, k: nat, j: nat): seq<BP.Hit>
    requires k <= |doc.windows| && j <= |days| && (j > 0 ==> k < |doc.windows|)
    decreases k, j
  {
    if j > 0 then
      EnforcedHits(zone, doc, at, days, k, j - 1) + EnforcedOn(zone, doc, at, doc.windows[k], days[j - 1])
    else if k > 0 then
      EnforcedHits(zone, doc, at, days, k - 1, |days|)
    else
      []
  }

  function DaysLookedAt(zone: ServerZone, at: Instant): seq<Day> {
    [zone.dayOf(at) - 2, zone.dayOf(at) - 1, zone.dayOf(at)]
  }

  /** The winning window, its effective start and its end; `None` outside enforcement. */
  function EnforcedAt(zone: ServerZone, doc: Document, at: Instant): Option<BP.Hit> {
    BP.LatestEnding(EnforcedHits(zone, doc, at, DaysLookedAt(zone, at), |doc.windows|, 0))
  }

  method EnforcedStart(doc: Document, start: Instant, until: Instant, window: Window, day: Day, at: Instant)
    returns (effectiveFrom: Instant)
    ensures effectiveFrom == RelaxedBy(doc.overrides, start, until, window, day, at).EffectiveFrom(until)
  {
    var from := start;
    var suspended := false;
    for i := 0 to |doc.overrides|
      invariant Relaxation(from, suspended) == RelaxedBy(doc.overrides[..i], start, until, window, day, at)
    {
      var o := doc.overrides[i];
      assert doc.overrides[..i + 1] == doc.overrides[..i] + [o];
      if o.expiresAt <= at { continue; }
      if o.windowId.Some? && o.windowId.value != window.id { continue; }
      if o.effectiveDate != Some(day) { continue; }
      if o.kind.Suspend? { suspended := true; }
      if o.kind.Extend? && o.minutes.Some? && o.minutes.value > 0 {
        from := Min(from + o.minutes.value * MINUTE, until);
      }
    }
    assert doc.overrides[..|doc.overrides|] == doc.overrides;
    effectiveFrom := if suspended then until else from;
  }

  method RestrictionAt(zone: ServerZone, doc: Document, at: Instant) returns (enforced: Option<BP.Hit>)
    ensures enforced == EnforcedAt(zone, doc, at)
  {
    var today := zone.dayOf(at);
    var days := [today - 2, today - 1, today];
    enforced := None;
    ghost var hits: seq<BP.Hit> := [];
    for i := 0 to |doc.windows|
      invariant hits == EnforcedHits(zone, doc, at, days, i, 0)
      invariant enforced == BP.LatestEnding(hits)
    {
      var window := doc.windows[i];
      for j := 0 to |days|
        invariant hits == EnforcedHits(zone, doc, at, days, i, j)
        invariant enforced == BP.LatestEnding(hits)
      {
        ghost var before := hits;
        hits := before + EnforcedOn(zone, doc, at, window, days[j]);
        if EnforcedOn(zone, doc, at, window, days[j]) == [] { assert hits == before; }
        if RunsOn(window, days[j]) {
          var from := zone.instant(days[j], window.from.value);
          var untilDay := if window.until.value <= window.from.value then days[j] + 1 else days[j];
          var until := zone.instant(untilDay, window.until.value);
          var effectiveFrom := EnforcedStart(doc, from, until, window, days[j], at);
          if at >= effectiveFrom && at < until {
            assert hits[..|hits| - 1] == before;
            if enforced.None? || until > enforced.value.span.until {
              enforced := Some(BP.Hit(window, days[j], BP.Span(effectiveFrom, until, [])));
            }
          }
        }
      }
    }
  }

  // ---- Agreement with the agent ---------------------------------------------------------

  /** The relaxation loop in closed form, in the shape of the agent's. */
  lemma {:induction false} RelaxationClosedForm(
      overrides: seq<Override>, from: Instant, until: Instant, window: Window, day: Day, at: Instant)
    ensures var r := RelaxedBy(overrides, from, until, window, day, at);
            var total := BP.TotalExtension(overrides, window, day, at);
            && r.suspended == BP.Suspended(overrides, window, day, at)
            && (r.from < until <==> from + total < until)
            && (r.from < until ==> r.from == from + total)
  {
    if overrides != [] {
      var front, last := overrides[..|overrides| - 1], overrides[|overrides| - 1];
      RelaxationClosedForm(front, from, until, window, day, at);
      assert overrides == front + [last];
      assert BP.Suspended(overrides, window, day, at)
        <==> BP.Suspended(front, window, day, at) || (last.kind.Suspend? && BP.Live(last, window, day, at));
    }
  }

  /** The two readers name the same instants for this window on this day. */
  ghost predicate SameBoundaries(agent: Resolver, server: ServerZone, window: Window, day: Day) {
    RunsOn(window, day) ==>
      && agent.instant(day, window.from.value, RestrictedFrom) == server.instant(day, window.from.value)
      && agent.instant(UntilDay(window, day), window.until.value, RestrictedUntil)
         == server.instant(UntilDay(window, day), window.until.value)
  }

  ghost predicate ReadersAgree(agent: Resolver, server: ServerZone, doc: Document, at: Instant) {
    && Ordered(agent)
    && agent.dayOf(at) == server.dayOf(at)
    && forall w, d :: w in doc.windows && d in DaysLookedAt(server, at) ==> SameBoundaries(agent, server, w, d)
  }

  ghost predicate SameHit(a: BP.Hit, b: BP.Hit) {
    a.window == b.window && a.day == b.day && a.span.from == b.span.from && a.span.until == b.span.until
  }

  ghost predicate SameHits(a: seq<BP.Hit>, b: seq<BP.Hit>) {
    |a| == |b| && forall i :: 0 <= i < |a| ==> SameHit(a[i], b[i])
  }

  lemma SameOnDay(
      agent: Resolver, server: ServerZone, doc: Document, at: Instant, window: Window, day: Day)
    requires Ordered(agent) && SameBoundaries(agent, server, window, day)
    ensures SameHits(BP.Contribute(agent, doc, at, window, day).hits, EnforcedOn(server, doc, at, window, day))
    ensures EnforcedOn(server, doc, at, window, day) == [] <==> !BP.Restricts(agent, doc, at, window, day)
  {
    if RunsOn(window, day) {
      var from := agent.instant(day, window.from.value, RestrictedFrom);
      var until := agent.instant(UntilDay(window, day), window.until.value, RestrictedUntil);
      BP.OverridesClosedForm(doc.overrides, BP.Span(from, until, []), window, day, at);
      RelaxationClosedForm(doc.overrides, from, until, window, day, at);
    }
  }

  lemma HitsJoin(a: seq<BP.Hit>, b: seq<BP.Hit>, c: seq<BP.Hit>, d: seq<BP.Hit>)
    requires SameHits(a, b) && SameHits(c, d)
    ensures SameHits(a + c, b + d)
  {
  }

  lemma {:induction false} SameHitsThroughout(
      agent: Resolver, server: ServerZone, doc: Document, at: Instant, k: nat, j: nat)
    requires ReadersAgree(agent, server, doc, at)
    requires k <= |doc.windows| && j <= 2 && (j > 0 ==> k < |doc.windows|)
    ensures SameHits(BP.Gather(agent, doc, at, BP.DaysConsidered(agent, at), k, j).hits,
                     EnforcedHits(server, doc, at, DaysLookedAt(server, at), k, if j == 0 then 0 else j + 1))
    decreases k, j
  {
    hide ReadersAgree, SameHits, SameBoundaries, EnforcedOn, BP.Contribute, BP.Restricts;
    var days, looked := BP.DaysConsidered(agent, at), DaysLookedAt(server, at);
    if j > 0 {
      var before := BP.Gather(agent, doc, at, days, k, j - 1).hits;
      SameHitsThroughout(agent, server, doc, at, k, j - 1);
      assert days[j - 1] == looked[j] by { SameDays(agent, server, doc, at); }
      OnDay(agent, server, doc, at, k, j);
      if j == 1 {
        NothingOldestDay(agent, server, doc, at, k);
        assert EnforcedHits(server, doc, at, looked, k, 1) == EnforcedHits(server, doc, at, looked, k, 0);
      }
      HitsJoin(before, EnforcedHits(server, doc, at, looked, k, j),
               BP.Contribute(agent, doc, at, doc.windows[k], days[j - 1]).hits,
               EnforcedOn(server, doc, at, doc.windows[k], looked[j]));
    } else if k > 0 {
      SameHitsThroughout(agent, server, doc, at, k - 1, 2);
    } else {
      NoHits();
    }
  }

  lemma NoHits()
    ensures SameHits([], [])
  {
  }

  lemma SameDays(agent: Resolver, server: ServerZone, doc: Document, at: Instant)
    requires ReadersAgree(agent, server, doc, at)
    ensures agent.dayOf(at) == server.dayOf(at)
  {
  }

  lemma OnDay(agent: Resolver, server: ServerZone, doc: Document, at: Instant, k: nat, j: nat)
    requires ReadersAgree(agent, server, doc, at) && k < |doc.windows| && j < 3
    ensures var day := DaysLookedAt(server, at)[j];
            && SameHits(BP.Contribute(agent, doc, at, doc.windows[k], day).hits,
                        EnforcedOn(server, doc, at, doc.windows[k], day))
            && (EnforcedOn(server, doc, at, doc.windows[k], day) == []
                <==> !BP.Restricts(agent, doc, at, doc.windows[k], day))
  {
    var day := DaysLookedAt(server, at)[j];
    assert doc.windows[k] in doc.windows && day in DaysLookedAt(server, at);
    SameOnDay(agent, server, doc, at, doc.windows[k], day);
  }

  /** The server's third day never holds a hit. */
  lemma NothingOldestDay(agent: Resolver, server: ServerZone, doc: Document, at: Instant, k: nat)
    requires ReadersAgree(agent, server, doc, at) && k < |doc.windows|
    ensures EnforcedOn(server, doc, at, doc.windows[k], DaysLookedAt(server, at)[0]) == []
  {
    OnDay(agent, server, doc, at, k, 0);
    NothingTwoDaysBack(agent, doc, at, doc.windows[k]);
  }

  lemma NothingTwoDaysBack(agent: Resolver, doc: Document, at: Instant, window: Window)
    requires Ordered(agent)
    ensures !BP.Restricts(agent, doc, at, window, agent.dayOf(at) - 2)
  {
    if BP.Restricts(agent, doc, at, window, agent.dayOf(at) - 2) {
      BP.TwoDaysSuffice(agent, doc, at, window, agent.dayOf(at) - 2);
    }
  }

  lemma {:induction false} SameWinner(a: seq<BP.Hit>, b: seq<BP.Hit>)
    requires SameHits(a, b)
    ensures BP.LatestEnding(a).Some? == BP.LatestEnding(b).Some?
    ensures BP.LatestEnding(a).Some? ==> SameHit(BP.LatestEnding(a).value, BP.LatestEnding(b).value)
  {
    if a != [] {
      SameWinner(a[..|a| - 1], b[..|b| - 1]);
    }
  }

  /**
    The mirror holds. Wherever the two readers name the same boundary instants, the
    server reports the enforced phase exactly when the agent is restricted, with the
    same winning window, the same end, and a start from which that window restricts.
   */
  lemma ServerMirrorsAgent(agent: Resolver, server: ServerZone, doc: Document, at: Instant)
    requires ReadersAgree(agent, server, doc, at)
    ensures var e := BP.EvaluationOf(agent, doc, at);
            var r := EnforcedAt(server, doc, at);
            && (r.Some? <==> e.IsRestricted())
            && (r.Some? ==>
                  && e.activeWindow == Some(r.value.window)
                  && e.restrictedUntil == Some(r.value.span.until)
                  && BP.Restricts(agent, doc, at, r.value.window, r.value.day)
                  && BP.RelaxedSpan(agent, doc, at, r.value.window, r.value.day).value.from == r.value.span.from)
  {
    SameHitsThroughout(agent, server, doc, at, |doc.windows|, 0);
    var days := BP.DaysConsidered(agent, at);
    var hits := BP.Gather(agent, doc, at, days, |doc.windows|, 0).hits;
    SameWinner(hits, EnforcedHits(server, doc, at, DaysLookedAt(server, at), |doc.windows|, 0));
    BP.LatestEndingIsLatest(hits);
    if hits != [] {
      BP.HitsAreSound(agent, doc, at, days, |doc.windows|, 0, BP.LatestEnding(hits).value);
    }
  }
}
