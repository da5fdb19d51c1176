/**
  Which warnings an evaluation reports. Restriction looks back over midnight; warnings look
  ahead, and the two considered days do not reach tomorrow.
 */
module BedtimeWarnings {
  import opened Basics
  import opened PolicyDocument
  import opened Sorting
  import opened BedtimePredicate

  /** A warning of the window on that day has come due and its boundary has not passed. */
  predicate IsDue(zone: Resolver, doc: Document, now: Instant, w: Window, day: Day, warning: Warning) {
    var span := RelaxedSpan(zone, doc, now, w, day);
    && span.Some? && span.value.from < span.value.until
    && span.value.from - warning.leadMinutes * MINUTE <= now < span.value.from
  }

  /** The warning as reported. */
  predicate DueAs(zone: Resolver, doc: Document, now: Instant, w: Window, day: Day, d: DueWarning) {
    exists warning :: warning in w.warnings && IsDue(zone, doc, now, w, day, warning)
      && d == DueWarning(warning.leadMinutes, warning.channel, w.id, RelaxedSpan(zone, doc, now, w, day).value.from)
  }

  lemma {:induction false} WarningsDueMembers(
      warnings: seq<Warning>, windowId: Id, boundary: Instant, now: Instant, d: DueWarning)
    ensures d in WarningsDue(warnings, windowId, boundary, now) <==>
              exists warning :: warning in warnings && boundary - warning.leadMinutes * MINUTE <= now < boundary
                && d == DueWarning(warning.leadMinutes, warning.channel, windowId, boundary)
  {
    if warnings != [] {
      var front, last := warnings[..|warnings| - 1], warnings[|warnings| - 1];
      WarningsDueMembers(front, windowId, boundary, now, d);
      assert warnings == front + [last];
      if WarningAt(last, boundary) <= now < boundary
         && d == DueWarning(last.leadMinutes, last.channel, windowId, boundary) {
        assert last in warnings;
      }
    }
  }

  lemma ContributedDue(zone: Resolver, doc: Document, now: Instant, w: Window, day: Day, d: DueWarning)
    ensures d in Contribute(zone, doc, now, w, day).due <==> DueAs(zone, doc, now, w, day, d)
  {
    hide AfterOverrides, ResolveSpan, WarningsDue, WarningBoundaries;
    var span := RelaxedSpan(zone, doc, now, w, day);
    if span.Some? {
      WarningsDueMembers(w.warnings, w.id, span.value.from, now, d);
    }
  }

  lemma {:induction false} DueAreGathered(
      zone: Resolver, doc: Document, now: Instant, days: seq<Day>, k: nat, j: nat, d: DueWarning)
    requires k <= |doc.windows| && j <= |days| && (j > 0 ==> k < |doc.windows|)
    ensures d in Gather(zone, doc, now, days, k, j).due <==>
              exists i, n :: 0 <= i < |doc.windows| && 0 <= n < |days| && Visited(i, n, |days|, k, j)
                && DueAs(zone, doc, now, doc.windows[i], days[n], d)
    decreases k, j
  {
    hide Contribute, DueAs;
    if j > 0 {
      DueAreGathered(zone, doc, now, days, k, j - 1, d);
      ContributedDue(zone, doc, now, doc.windows[k], days[j - 1], d);
      if DueAs(zone, doc, now, doc.windows[k], days[j - 1], d) {
        assert Visited(k, j - 1, |days|, k, j);
      }
      assert forall i: nat, n: nat ::
        Visited(i, n, |days|, k, j) <==> Visited(i, n, |days|, k, j - 1) || (i == k && n == j - 1);
    } else if k > 0 {
      DueAreGathered(zone, doc, now, days, k - 1, |days|, d);
      assert forall i: nat, n: nat :: Visited(i, n, |days|, k, 0) <==> Visited(i, n, |days|, k - 1, |days|);
    }
  }

  lemma SortedDue(zone: Resolver, doc: Document, now: Instant, d: DueWarning)
    ensures d in EvaluationOf(zone, doc, now).dueWarnings
            <==> d in Gather(zone, doc, now, DaysConsidered(zone, now), |doc.windows|, 0).due
  {
    var due := Gather(zone, doc, now, DaysConsidered(zone, now), |doc.windows|, 0).due;
    var shorter := (a: DueWarning, b: DueWarning) => a.leadMinutes < b.leadMinutes;
    SortKeepsRows(shorter, due);
    assert d in multiset(Sort(shorter, due)) <==> d in multiset(due);
  }

  // ---- The next boundary --------------------------------------------------------------------------

  /** An instant ahead at which the window of that day starts to restrict, or warns of it. */
  predicate IsAhead(zone: Resolver, doc: Document, now: Instant, w: Window, day: Day, at: Instant) {
    var span := RelaxedSpan(zone, doc, now, w, day);
    && at > now && span.Some? && span.value.from < span.value.until
    && (at == span.value.from
        || exists warning :: warning in w.warnings && at == span.value.from - warning.leadMinutes * MINUTE)
  }

  lemma {:induction false} WarningBoundariesMembers(
      warnings: seq<Warning>, boundary: Instant, now: Instant, at: Instant)
    ensures at in WarningBoundaries(warnings, boundary, now) <==>
              at > now && exists warning :: warning in warnings && at == boundary - warning.leadMinutes * MINUTE
  {
    if warnings != [] {
      var front, last := warnings[..|warnings| - 1], warnings[|warnings| - 1];
      WarningBoundariesMembers(front, boundary, now, at);
      assert warnings == front + [last];
      if at == boundary - last.leadMinutes * MINUTE {
        assert last in warnings;
      }
    }
  }

  lemma ContributedAhead(zone: Resolver, doc: Document, now: Instant, w: Window, day: Day, at: Instant)
    ensures at in Contribute(zone, doc, now, w, day).boundaries <==> IsAhead(zone, doc, now, w, day, at)
  {
    hide AfterOverrides, ResolveSpan, WarningsDue, WarningBoundaries;
    var span := RelaxedSpan(zone, doc, now, w, day);
    if span.Some? {
      WarningBoundariesMembers(w.warnings, span.value.from, now, at);
    }
  }

  lemma {:induction false} AheadAreGathered(
      zone: Resolver, doc: Document, now: Instant, days: seq<Day>, k: nat, j: nat, at: Instant)
    requires k <= |doc.windows| && j <= |days| && (j > 0 ==> k < |doc.windows|)
    ensures at in Gather(zone, doc, now, days, k, j).boundaries <==>
              exists i, n :: 0 <= i < |doc.windows| && 0 <= n < |days| && Visited(i, n, |days|, k, j)
                && IsAhead(zone, doc, now, doc.windows[i], days[n], at)
    decreases k, j
  {
    hide Contribute, IsAhead;
    if j > 0 {
      AheadAreGathered(zone, doc, now, days, k, j - 1, at);
      ContributedAhead(zone, doc, now, doc.windows[k], days[j - 1], at);
      if IsAhead(zone, doc, now, doc.windows[k], days[j - 1], at) {
        assert Visited(k, j - 1, |days|, k, j);
      }
      assert forall i: nat, n: nat ::
        Visited(i, n, |days|, k, j) <==> Visited(i, n, |days|, k, j - 1) || (i == k && n == j - 1);
    } else if k > 0 {
      AheadAreGathered(zone, doc, now, days, k - 1, |days|, at);
      assert forall i: nat, n: nat :: Visited(i, n, |days|, k, 0) <==> Visited(i, n, |days|, k - 1, |days|);
    }
  }

  /** A window with a start or an earlier warning ahead ends ahead, so its day is yesterday at the earliest. */
  lemma AheadIsRecent(zone: Resolver, doc: Document, now: Instant, w: Window, day: Day, at: Instant)
    requires Ordered(zone) && IsAhead(zone, doc, now, w, day, at)
    requires forall warning :: warning in w.warnings ==> warning.leadMinutes >= 0
    ensures zone.dayOf(now) - 1 <= day
  {
    var raw := ResolveSpan(zone, w, day).value;
    OverridesClosedForm(doc.overrides, raw, w, day, now);
    assert now < raw.until;
    var untilDay := if Wraps(w) then day + 1 else day;
    assert !(untilDay < zone.dayOf(now));
  }

  /**
    The next boundary is the earliest instant ahead at which a window of today or yesterday starts
    to restrict or warns of it, and there is none exactly when nothing of those is ahead.
   */
  lemma NextBoundaryIsTheEarliest(zone: Resolver, doc: Document, now: Instant)
    ensures var next := EvaluationOf(zone, doc, now).nextBoundaryAt;
            && (next.Some? ==>
                  exists w, day :: w in doc.windows && zone.dayOf(now) - 1 <= day <= zone.dayOf(now)
                                   && IsAhead(zone, doc, now, w, day, next.value))
            && (forall w, day, at | w in doc.windows && IsAhead(zone, doc, now, w, day, at) ::
                  zone.dayOf(now) - 1 <= day <= zone.dayOf(now) ==> next.Some? && next.value <= at)
  {
    hide IsAhead, Gather;
    var days := DaysConsidered(zone, now);
    var next := EvaluationOf(zone, doc, now).nextBoundaryAt;
    if next.Some? {
      AheadAreGathered(zone, doc, now, days, |doc.windows|, 0, next.value);
      var i, n :| 0 <= i < |doc.windows| && 0 <= n < |days| && Visited(i, n, |days|, |doc.windows|, 0)
                  && IsAhead(zone, doc, now, doc.windows[i], days[n], next.value);
      assert doc.windows[i] in doc.windows && days[n] <= zone.dayOf(now);
    }
    forall w, day, at | w in doc.windows && zone.dayOf(now) - 1 <= day <= zone.dayOf(now)
                        && IsAhead(zone, doc, now, w, day, at)
      ensures next.Some? && next.value <= at
    {
      AheadIsAhead(zone, doc, now, w, day, at);
      var i :| 0 <= i < |doc.windows| && doc.windows[i] == w;
      var n := day - (zone.dayOf(now) - 1);
      assert days[n] == day && Visited(i, n, |days|, |doc.windows|, 0);
      AheadAreGathered(zone, doc, now, days, |doc.windows|, 0, at);
    }
  }

  lemma AheadIsAhead(zone: Resolver, doc: Document, now: Instant, w: Window, day: Day, at: Instant)
    requires IsAhead(zone, doc, now, w, day, at)
    ensures at > now
  {
  }

  // ---- The warnings reported ------------------------------------------------------------------------

  /** A due warning's window ends ahead, so its day is yesterday at the earliest. */
  lemma DueIsRecent(zone: Resolver, doc: Document, now: Instant, w: Window, day: Day, d: DueWarning)
    requires Ordered(zone) && DueAs(zone, doc, now, w, day, d)
    ensures zone.dayOf(now) - 1 <= day
  {
    var raw := ResolveSpan(zone, w, day).value;
    OverridesClosedForm(doc.overrides, raw, w, day, now);
    assert now < raw.until;
    var untilDay := if Wraps(w) then day + 1 else day;
    assert !(untilDay < zone.dayOf(now));
  }

  /**
    Over windows on every day there is, a due warning is reported exactly when its window
    is of today or an earlier day: one for a boundary past midnight waits for midnight.
   */
  lemma WarningsSeenExactly(zone: Resolver, doc: Document, now: Instant, d: DueWarning)
    requires Ordered(zone)
    ensures d in EvaluationOf(zone, doc, now).dueWarnings <==>
              exists w, day :: w in doc.windows && day <= zone.dayOf(now) && DueAs(zone, doc, now, w, day, d)
  {
    hide Ordered, DueAs, EvaluationOf, Gather;
    var days := DaysConsidered(zone, now);
    SortedDue(zone, doc, now, d);
    DueAreGathered(zone, doc, now, days, |doc.windows|, 0, d);
    if i, n :| 0 <= i < |doc.windows| && 0 <= n < |days| && Visited(i, n, |days|, |doc.windows|, 0)
               && DueAs(zone, doc, now, doc.windows[i], days[n], d) {
      assert doc.windows[i] in doc.windows && days[n] <= zone.dayOf(now);
    }
    if w, day :| w in doc.windows && day <= zone.dayOf(now) && DueAs(zone, doc, now, w, day, d) {
      DueIsRecent(zone, doc, now, w, day, d);
      var i :| 0 <= i < |doc.windows| && doc.windows[i] == w;
      var n := day - (zone.dayOf(now) - 1);
      assert days[n] == day && Visited(i, n, |days|, |doc.windows|, 0);
    }
  }

  const UTC := Resolver((d: Day, m: Minute, k: BoundaryKind) => d * DAY + m * MINUTE, (t: Instant) => t / DAY)

  function EarlyWindow(channel: Channel): Window {
    Window(1, {0, 1, 2, 3, 4, 5, 6}, Some(10), Some(360), LockOnly, 300, [Warning(30, channel)])
  }

  lemma UtcInstant(d: Day, m: Minute, k: BoundaryKind, t: Instant)
    ensures UTC.dayOf(t) < d ==> t < UTC.instant(d, m, k)
    ensures d < UTC.dayOf(t) ==> UTC.instant(d, m, k) <= t
    ensures UTC.dayOf(UTC.instant(d, 0, k)) == d
  {
    assert t / DAY * DAY <= t < t / DAY * DAY + DAY;
    assert d * DAY / DAY == d;
  }

  lemma UtcIsOrdered()
    ensures Ordered(UTC)
  {
    forall d: Day, m: Minute, k: BoundaryKind, t: Instant
      ensures UTC.dayOf(t) < d ==> t < UTC.instant(d, m, k)
      ensures d < UTC.dayOf(t) ==> UTC.instant(d, m, k) <= t
    {
      UtcInstant(d, m, k, t);
    }
    forall d: Day ensures UTC.dayOf(UTC.instant(d, 0, RestrictedFrom)) == d {
      UtcInstant(d, 0, RestrictedFrom, 0);
    }
  }

  lemma EarlySpan(channel: Channel, now: Instant, day: Day)
    ensures RelaxedSpan(UTC, Document([EarlyWindow(channel)], []), now, EarlyWindow(channel), day)
            == Some(Span(day * DAY + 10 * MINUTE, day * DAY + 360 * MINUTE, []))
  {
    assert UTC.dayOf(UTC.instant(day, 0, RestrictedFrom)) == day;
  }

  /** At 23:45 a half-hour warning for 00:10 is due, and is not reported. */
  lemma TomorrowIsNotWarnedOf(channel: Channel)
    ensures var w, now := EarlyWindow(channel), DAY - 15 * MINUTE;
            var d := DueWarning(30, channel, 1, DAY + 10 * MINUTE);
            && Ordered(UTC) && DueAs(UTC, Document([w], []), now, w, UTC.dayOf(now) + 1, d)
            && d !in EvaluationOf(UTC, Document([w], []), now).dueWarnings
  {
    hide RelaxedSpan, EvaluationOf, Ordered;
    var w, now := EarlyWindow(channel), DAY - 15 * MINUTE;
    var doc, d := Document([w], []), DueWarning(30, channel, 1, DAY + 10 * MINUTE);
    UtcIsOrdered();
    EarlySpan(channel, now, 1);
    assert w.warnings[0] in w.warnings && IsDue(UTC, doc, now, w, 1, w.warnings[0]);
    WarningsSeenExactly(UTC, doc, now, d);
    forall v, day | v in doc.windows && day <= 0 ensures !DueAs(UTC, doc, now, v, day, d) {
      EarlySpan(channel, now, day);
    }
  }
}
