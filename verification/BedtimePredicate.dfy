/**
  Is the Mac inside a restricted window at this instant? Windows of yesterday and
  today, each shortened by the relaxations still alive, and the latest-ending one
  that covers the instant.
 */
module BedtimePredicate {
  import opened Basics
  import opened PolicyDocument
  import opened Sorting

  datatype Span = Span(from: Instant, until: Instant, overrideIds: seq<OverrideId>) {
    predicate Covers(now: Instant) {
      from <= now < until
    }
  }

  datatype DueWarning = DueWarning(leadMinutes: int, channel: Channel, windowId: Id, boundaryAt: Instant)

  datatype Evaluation = Evaluation(
    activeWindow: Option<Window>,
    restrictedUntil: Option<Instant>,
    nextBoundaryAt: Option<Instant>,
    dueWarnings: seq<DueWarning>,
    appliedOverrideIds: seq<OverrideId>)
  {
    predicate IsRestricted() {
      activeWindow.Some?
    }
  }

  /** One window on one local day, as instants; `None` when it does not run that day. */
  function ResolveSpan(zone: Resolver, window: Window, day: Day): Option<Span> {
    if !RunsOn(window, zone.dayOf(zone.instant(day, 0, RestrictedFrom))) then None
    else
      var untilDay := if Wraps(window) then day + 1 else day;
      Some(Span(zone.instant(day, window.from.value, RestrictedFrom),
                zone.instant(untilDay, window.until.value, RestrictedUntil),
                []))
  }

  // ---- Relaxations ----------------------------------------------------------------------

  /** Unexpired, for this window or for all of them, and granted for this day. */
  predicate Live(o: Override, window: Window, day: Day, now: Instant) {
    && o.expiresAt > now
    && (o.windowId.None? || o.windowId.value == window.id)
    && o.effectiveDate == Some(day)
  }

  /** A later start never pushes the end out; an unknown kind relaxes nothing. */
  function Relax(o: Override, span: Span): Span {
    match o.kind
    case Suspend => span.(until := span.from, overrideIds := span.overrideIds + [o.id])
    case Extend =>
      if o.minutes.Some? && o.minutes.value > 0 then
        Span(Min(span.from + o.minutes.value * MINUTE, span.until), span.until, span.overrideIds + [o.id])
      else span
    case OtherKind => span
  }

  function AfterOverrides(overrides: seq<Override>, span: Span, window: Window, day: Day, now: Instant): Span {
    if overrides == [] then span
    else
      var last := overrides[|overrides| - 1];
      var before := AfterOverrides(overrides[..|overrides| - 1], span, window, day, now);
      if Live(last, window, day, now) then Relax(last, before) else before
  }

  method ApplyOverrides(span: Span, window: Window, day: Day, overrides: seq<Override>, now: Instant)
    returns (result: Span)
    ensures result == AfterOverrides(overrides, span, window, day, now)
  {
    result := span;
    for i := 0 to |overrides|
      invariant result == AfterOverrides(overrides[..i], span, window, day, now)
    {
      var o := overrides[i];
      assert overrides[..i + 1] == overrides[..i] + [o];
      if o.expiresAt <= now { continue; }
      if o.windowId.Some? && o.windowId.value != window.id { continue; }
      if o.effectiveDate != Some(day) { continue; }
      match o.kind {
        case Suspend =>
          result := result.(until := result.from, overrideIds := result.overrideIds + [o.id]);
        case Extend =>
          if o.minutes.Some? && o.minutes.value > 0 {
            result := result.(from := result.from + o.minutes.value * MINUTE);
            if result.from > result.until {
              result := result.(from := result.until);
            }
            result := result.(overrideIds := result.overrideIds + [o.id]);
          }
        case OtherKind =>
      }
    }
    assert overrides[..|overrides|] == overrides;
  }

  predicate Suspended(overrides: seq<Override>, window: Window, day: Day, now: Instant) {
    exists o :: o in overrides && o.kind.Suspend? && Live(o, window, day, now)
  }

  function Extension(o: Override, window: Window, day: Day, now: Instant): (d: Duration)
    ensures d >= 0
  {
    if o.kind.Extend? && o.minutes.Some? && o.minutes.value > 0 && Live(o, window, day, now)
    then o.minutes.value * MINUTE else 0
  }

  function TotalExtension(overrides: seq<Override>, window: Window, day: Day, now: Instant): (d: Duration)
    ensures d >= 0
  {
    if overrides == [] then 0
    else TotalExtension(overrides[..|overrides| - 1], window, day, now)
         + Extension(overrides[|overrides| - 1], window, day, now)
  }

  /**
    The override loop in closed form: nothing is left exactly when some live suspend
    exists or the live extensions reach the end; otherwise the start has moved by
    their sum and the end has not moved.
   */
  lemma {:induction false} OverridesClosedForm(
      overrides: seq<Override>, span: Span, window: Window, day: Day, now: Instant)
    ensures var r := AfterOverrides(overrides, span, window, day, now);
            var total := TotalExtension(overrides, window, day, now);
            && (r.from < r.until
                <==> !Suspended(overrides, window, day, now) && span.from + total < span.until)
            && (r.from < r.until ==> r.from == span.from + total && r.until == span.until)
  {
    if overrides != [] {
      var front, last := overrides[..|overrides| - 1], overrides[|overrides| - 1];
      OverridesClosedForm(front, span, window, day, now);
      assert overrides == front + [last];
      assert Suspended(overrides, window, day, now)
        <==> Suspended(front, window, day, now) || (last.kind.Suspend? && Live(last, window, day, now));
    }
  }

  /** It relaxes the span at all. */
  predicate Relaxes(o: Override) {
    o.kind.Suspend? || (o.kind.Extend? && o.minutes.Some? && o.minutes.value > 0)
  }

  /** The overrides said to have applied are those alive, for this window and day, that relax anything. */
  lemma {:induction false} AppliedExactly(
      overrides: seq<Override>, span: Span, window: Window, day: Day, now: Instant, id: OverrideId)
    ensures id in AfterOverrides(overrides, span, window, day, now).overrideIds
            <==> id in span.overrideIds
                 || exists o :: o in overrides && o.id == id && Relaxes(o)
                                && o.expiresAt > now && (o.windowId.None? || o.windowId == Some(window.id))
                                && o.effectiveDate == Some(day)
  {
    if overrides != [] {
      var front, last := overrides[..|overrides| - 1], overrides[|overrides| - 1];
      AppliedExactly(front, span, window, day, now, id);
      assert overrides == front + [last];
    }
  }

  lemma {:induction false} ExtensionWithout(overrides: seq<Override>, i: nat, window: Window, day: Day, now: Instant)
    requires i < |overrides|
    ensures TotalExtension(overrides, window, day, now)
            == TotalExtension(overrides[..i] + overrides[i + 1..], window, day, now)
               + Extension(overrides[i], window, day, now)
  {
    var rest := overrides[..i] + overrides[i + 1..];
    if i == |overrides| - 1 {
      assert rest == overrides[..i];
    } else {
      var front := overrides[..|overrides| - 1];
      ExtensionWithout(front, i, window, day, now);
      assert rest[..|rest| - 1] == front[..i] + front[i + 1..];
    }
  }

  lemma {:induction false} MoreOverridesExtendMore(
      fewer: seq<Override>, more: seq<Override>, window: Window, day: Day, now: Instant)
    requires multiset(fewer) <= multiset(more)
    ensures TotalExtension(fewer, window, day, now) <= TotalExtension(more, window, day, now)
    ensures Suspended(fewer, window, day, now) ==> Suspended(more, window, day, now)
  {
    MoreSuspendMore(fewer, more, window, day, now);
    if fewer != [] {
      hide Suspended, Extension;
      var front, last := fewer[..|fewer| - 1], fewer[|fewer| - 1];
      assert last in multiset(fewer) && last in multiset(more);
      var i :| 0 <= i < |more| && more[i] == last;
      ExtensionWithout(more, i, window, day, now);
      OneFewer(fewer, more, i);
      MoreOverridesExtendMore(front, more[..i] + more[i + 1..], window, day, now);
    }
  }

  lemma MoreSuspendMore(fewer: seq<Override>, more: seq<Override>, window: Window, day: Day, now: Instant)
    requires multiset(fewer) <= multiset(more)
    ensures Suspended(fewer, window, day, now) ==> Suspended(more, window, day, now)
  {
    hide Live;
    forall o | o in fewer ensures o in more {
      assert o in multiset(fewer) && o in multiset(more);
    }
  }

  lemma OneFewer(fewer: seq<Override>, more: seq<Override>, i: nat)
    requires multiset(fewer) <= multiset(more)
    requires fewer != [] && i < |more| && more[i] == fewer[|fewer| - 1]
    ensures multiset(fewer[..|fewer| - 1]) <= multiset(more[..i] + more[i + 1..])
  {
    var front, last, rest := fewer[..|fewer| - 1], fewer[|fewer| - 1], more[..i] + more[i + 1..];
    assert fewer == front + [last] && more == more[..i] + [last] + more[i + 1..];
    forall o ensures multiset(front)[o] <= multiset(rest)[o] {
      assert multiset(fewer)[o] == multiset(front)[o] + multiset{last}[o];
      assert multiset(more)[o] == multiset(rest)[o] + multiset{last}[o];
      assert multiset(fewer)[o] <= multiset(more)[o];
    }
  }

  // ---- The evaluation ---------------------------------------------------------------------

  datatype Hit = Hit(window: Window, day: Day, span: Span)

  /** What one window contributes on one day. */
  datatype Contribution = Contribution(hits: seq<Hit>, boundaries: seq<Instant>, due: seq<DueWarning>) {
    function Plus(next: Contribution): Contribution {
      Contribution(hits + next.hits, boundaries + next.boundaries, due + next.due)
    }
  }

  const NOTHING := Contribution([], [], [])

  function WarningAt(warning: Warning, boundary: Instant): Instant {
    boundary - warning.leadMinutes * MINUTE
  }

  function WarningBoundaries(warnings: seq<Warning>, boundary: Instant, now: Instant): seq<Instant> {
    if warnings == [] then []
    else
      var at := WarningAt(warnings[|warnings| - 1], boundary);
      WarningBoundaries(warnings[..|warnings| - 1], boundary, now) + (if at > now then [at] else [])
  }

  /** Due from its own moment until the boundary. */
  function WarningsDue(warnings: seq<Warning>, windowId: Id, boundary: Instant, now: Instant): seq<DueWarning> {
    if warnings == [] then []
    else
      var w := warnings[|warnings| - 1];
      WarningsDue(warnings[..|warnings| - 1], windowId, boundary, now)
      + (if WarningAt(w, boundary) <= now < boundary
         then [DueWarning(w.leadMinutes, w.channel, windowId, boundary)] else [])
  }

  function Contribute(zone: Resolver, doc: Document, now: Instant, window: Window, day: Day): Contribution {
    var raw := ResolveSpan(zone, window, day);
    if raw.None? then NOTHING
    else
      var relaxed := AfterOverrides(doc.overrides, raw.value, window, day, now);
      if relaxed.until <= relaxed.from then NOTHING
      else
        Contribution(
          if relaxed.Covers(now) then [Hit(window, day, relaxed)] else [],
          (if relaxed.from > now then [relaxed.from] else [])
          + WarningBoundaries(window.warnings, relaxed.from, now),
          WarningsDue(window.warnings, window.id, relaxed.from, now))
  }

  /** The first `k` windows on all the given days, then window `k` on the first `j` of them. */
  function Gather(zone: Resolver, doc: Document, now: Instant, days: seq<Day>, k: nat, j: nat): Contribution
    requires k <= |doc.windows| && j <= |days| && (j > 0 ==> k < |doc.windows|)
    decreases k, j
  {
    if j > 0 then
      Gather(zone, doc, now, days, k, j - 1).Plus(Contribute(zone, doc, now, doc.windows[k], days[j - 1]))
    else if k > 0 then
      Gather(zone, doc, now, days, k - 1, |days|)
    else
      NOTHING
  }

  /** The latest-ending hit; the first of them when several end together. */
  function LatestEnding(hits: seq<Hit>): Option<Hit> {
    if hits == [] then None
    else
      var best, next := LatestEnding(hits[..|hits| - 1]), hits[|hits| - 1];
      if best.None? || next.span.until > best.value.span.until then Some(next) else best
  }

  /** No hit ends later than this one, and none before it ends as late. */
  predicate FirstLatest(hits: seq<Hit>, i: nat)
    requires i < |hits|
  {
    && (forall j :: 0 <= j < |hits| ==> hits[j].span.until <= hits[i].span.until)
    && (forall j :: 0 <= j < i ==> hits[j].span.until < hits[i].span.until)
  }

  lemma FirstLatestNext(hits: seq<Hit>, last: Hit, i: nat)
    requires i < |hits| && FirstLatest(hits, i)
    ensures last.span.until <= hits[i].span.until ==> FirstLatest(hits + [last], i)
    ensures last.span.until > hits[i].span.until ==> FirstLatest(hits + [last], |hits|)
  {
  }

  lemma {:induction false} LatestEndingIsLatest(hits: seq<Hit>)
    ensures LatestEnding(hits).None? <==> hits == []
    ensures hits != [] ==>
              exists i :: 0 <= i < |hits| && LatestEnding(hits) == Some(hits[i]) && FirstLatest(hits, i)
  {
    hide FirstLatest;
    if |hits| == 1 {
      SingleIsLatest(hits);
    } else if hits != [] {
      var front, last := hits[..|hits| - 1], hits[|hits| - 1];
      assert hits == front + [last];
      LatestEndingIsLatest(front);
      var i :| 0 <= i < |front| && LatestEnding(front) == Some(front[i]) && FirstLatest(front, i);
      FirstLatestNext(front, last, i);
      assert hits[i] == front[i];
    }
  }

  lemma SingleIsLatest(hits: seq<Hit>)
    requires |hits| == 1
    ensures LatestEnding(hits) == Some(hits[0]) && FirstLatest(hits, 0)
  {
    assert LatestEnding(hits[..0]) == None;
  }

  /** The earliest boundary still ahead. */
  function Soonest(boundaries: seq<Instant>, now: Instant): (r: Option<Instant>)
    ensures r.None? ==> forall b :: b in boundaries ==> b <= now
    ensures r.Some? ==>
              r.value in boundaries && r.value > now && forall b :: b in boundaries && b > now ==> r.value <= b
  {
    if boundaries == [] then None
    else
      var front, b := boundaries[..|boundaries| - 1], boundaries[|boundaries| - 1];
      var rest := Soonest(front, now);
      assert boundaries == front + [b];
      if b <= now || (rest.Some? && rest.value <= b) then rest else Some(b)
  }

  function Concluded(c: Contribution, now: Instant): Evaluation {
    var best := LatestEnding(c.hits);
    Evaluation(
      if best.Some? then Some(best.value.window) else None,
      if best.Some? then Some(best.value.span.until) else None,
      Soonest(c.boundaries, now),
      Sort((a: DueWarning, b: DueWarning) => a.leadMinutes < b.leadMinutes, c.due),
      if best.Some? then best.value.span.overrideIds else [])
  }

  function DaysConsidered(zone: Resolver, now: Instant): seq<Day> {
    [zone.dayOf(now) - 1, zone.dayOf(now)]
  }

  function EvaluationOf(zone: Resolver, doc: Document, now: Instant): Evaluation {
    Concluded(Gather(zone, doc, now, DaysConsidered(zone, now), |doc.windows|, 0), now)
  }

  method CollectWarnings(window: Window, boundary: Instant, now: Instant)
    returns (boundaries: seq<Instant>, due: seq<DueWarning>)
    ensures boundaries == WarningBoundaries(window.warnings, boundary, now)
    ensures due == WarningsDue(window.warnings, window.id, boundary, now)
  {
    boundaries, due := [], [];
    var warnings := window.warnings;
    for n := 0 to |warnings|
      invariant boundaries == WarningBoundaries(warnings[..n], boundary, now)
      invariant due == WarningsDue(warnings[..n], window.id, boundary, now)
    {
      assert warnings[..n + 1] == warnings[..n] + [warnings[n]];
      var at := boundary - warnings[n].leadMinutes * MINUTE;
      if at > now { boundaries := boundaries + [at]; }
      if now >= at && now < boundary {
        due := due + [DueWarning(warnings[n].leadMinutes, warnings[n].channel, window.id, boundary)];
      }
    }
    assert warnings[..|warnings|] == warnings;
  }

  method EvaluateOn(zone: Resolver, doc: Document, now: Instant, window: Window, day: Day)
    returns (c: Contribution)
    ensures c == Contribute(zone, doc, now, window, day)
  {
    var span := ResolveSpan(zone, window, day);
    if span.None? {
      return NOTHING;
    }
    var relaxed := ApplyOverrides(span.value, window, day, doc.overrides, now);
    // Relaxed to nothing: no boundary and no warnings.
    if relaxed.until <= relaxed.from {
      return NOTHING;
    }
    var hits: seq<Hit>, boundaries: seq<Instant> := [], [];
    if now >= relaxed.from && now < relaxed.until {
      hits := [Hit(window, day, relaxed)];
    }
    if relaxed.from > now {
      boundaries := [relaxed.from];
    }
    var more, due := CollectWarnings(window, relaxed.from, now);
    c := Contribution(hits, boundaries + more, due);
  }

  method Evaluate(zone: Resolver, doc: Document, now: Instant) returns (e: Evaluation)
    ensures e == EvaluationOf(zone, doc, now)
  {
    var today := zone.dayOf(now);
    var days := [today - 1, today];
    var active: Option<Hit> := None;
    var seen := NOTHING;

    for i := 0 to |doc.windows|
      invariant seen == Gather(zone, doc, now, days, i, 0)
      invariant active == LatestEnding(seen.hits)
    {
      for j := 0 to |days|
        invariant seen == Gather(zone, doc, now, days, i, j)
        invariant active == LatestEnding(seen.hits)
      {
        var c := EvaluateOn(zone, doc, now, doc.windows[i], days[j]);
        ghost var before := seen.hits;
        seen := seen.Plus(c);
        if c.hits != [] {
          assert seen.hits[..|seen.hits| - 1] == before;
          // Of two hits the later end wins.
          if active.None? || c.hits[0].span.until > active.value.span.until {
            active := Some(c.hits[0]);
          }
        } else {
          assert seen.hits == before;
        }
      }
    }

    e := Concluded(seen, now);
  }

  // ---- What the evaluation means ------------------------------------------------------------

  /** The window's span on that day after relaxations, when it runs at all. */
  function RelaxedSpan(zone: Resolver, doc: Document, now: Instant, window: Window, day: Day): Option<Span> {
    var raw := ResolveSpan(zone, window, day);
    if raw.None? then None else Some(AfterOverrides(doc.overrides, raw.value, window, day, now))
  }

  /** The window of that local day restricts at this instant. No bound on the day. */
  predicate Restricts(zone: Resolver, doc: Document, now: Instant, window: Window, day: Day) {
    RelaxedSpan(zone, doc, now, window, day).Some? && RelaxedSpan(zone, doc, now, window, day).value.Covers(now)
  }

  lemma {:induction false} HitsAreSound(
      zone: Resolver, doc: Document, now: Instant, days: seq<Day>, k: nat, j: nat, h: Hit)
    requires k <= |doc.windows| && j <= |days| && (j > 0 ==> k < |doc.windows|)
    requires h in Gather(zone, doc, now, days, k, j).hits
    ensures h.window in doc.windows && h.day in days
    ensures Restricts(zone, doc, now, h.window, h.day)
    ensures RelaxedSpan(zone, doc, now, h.window, h.day) == Some(h.span)
    decreases k, j
  {
    if j > 0 {
      if h in Gather(zone, doc, now, days, k, j - 1).hits {
        HitsAreSound(zone, doc, now, days, k, j - 1, h);
      } else {
        assert h in Contribute(zone, doc, now, doc.windows[k], days[j - 1]).hits;
      }
    } else if k > 0 {
      HitsAreSound(zone, doc, now, days, k - 1, |days|, h);
    }
  }

  lemma {:induction false} HitsAreComplete(
      zone: Resolver, doc: Document, now: Instant, days: seq<Day>, k: nat, j: nat, i: nat, n: nat)
    requires k <= |doc.windows| && j <= |days| && (j > 0 ==> k < |doc.windows|)
    requires i < |doc.windows| && n < |days| && (i < k || (i == k && n < j))
    requires Restricts(zone, doc, now, doc.windows[i], days[n])
    ensures Hit(doc.windows[i], days[n], RelaxedSpan(zone, doc, now, doc.windows[i], days[n]).value)
            in Gather(zone, doc, now, days, k, j).hits
    decreases k, j
  {
    if j > 0 {
      if !(i == k && n == j - 1) {
        HitsAreComplete(zone, doc, now, days, k, j - 1, i, n);
      }
    } else {
      HitsAreComplete(zone, doc, now, days, k - 1, |days|, i, n);
    }
  }

  /**
    Two days suffice: whatever restricts at an instant is a window of that instant's
    local day or of the day before, over windows on every day there is.
   */
  lemma TwoDaysSuffice(zone: Resolver, doc: Document, now: Instant, window: Window, day: Day)
    requires Ordered(zone)
    requires Restricts(zone, doc, now, window, day)
    ensures day in DaysConsidered(zone, now)
  {
    var raw := ResolveSpan(zone, window, day).value;
    OverridesClosedForm(doc.overrides, raw, window, day, now);
    assert raw.from <= now < raw.until;
    var untilDay := if Wraps(window) then day + 1 else day;
    assert !(zone.dayOf(now) < day);
    assert !(untilDay < zone.dayOf(now));
  }

  /**
    The evaluation against the specification over all days: restricted exactly when
    some window of some day restricts, by such a window, until the latest of their ends.
   */
  lemma EvaluationMeaning(zone: Resolver, doc: Document, now: Instant)
    requires Ordered(zone)
    ensures var e := EvaluationOf(zone, doc, now);
            && (e.IsRestricted() <==> exists w, d :: w in doc.windows && Restricts(zone, doc, now, w, d))
            && (e.IsRestricted() ==> exists d ::
                  && Restricts(zone, doc, now, e.activeWindow.value, d)
                  && e.activeWindow.value in doc.windows
                  && e.restrictedUntil == Some(RelaxedSpan(zone, doc, now, e.activeWindow.value, d).value.until))
            && (forall w, d :: w in doc.windows && Restricts(zone, doc, now, w, d) ==>
                  && e.restrictedUntil.Some?
                  && RelaxedSpan(zone, doc, now, w, d).value.until <= e.restrictedUntil.value)
  {
    var days := DaysConsidered(zone, now);
    var hits := Gather(zone, doc, now, days, |doc.windows|, 0).hits;
    var e := EvaluationOf(zone, doc, now);
    LatestEndingIsLatest(hits);
    if hits != [] {
      var best := LatestEnding(hits).value;
      HitsAreSound(zone, doc, now, days, |doc.windows|, 0, best);
      assert Restricts(zone, doc, now, e.activeWindow.value, best.day);
    }
    forall w, d | w in doc.windows && Restricts(zone, doc, now, w, d)
      ensures e.restrictedUntil.Some?
              && RelaxedSpan(zone, doc, now, w, d).value.until <= e.restrictedUntil.value
    {
      TwoDaysSuffice(zone, doc, now, w, d);
      var i :| 0 <= i < |doc.windows| && doc.windows[i] == w;
      var n :| 0 <= n < |days| && days[n] == d;
      HitsAreComplete(zone, doc, now, days, |doc.windows|, 0, i, n);
    }
  }

  // ---- Which window wins --------------------------------------------------------------------

  /** Window `i` on day `n` comes before the loop's position. */
  predicate Visited(i: nat, n: nat, days: nat, k: nat, j: nat) {
    n < days && (i < k || (i == k && n < j))
  }

  function Until(zone: Resolver, doc: Document, now: Instant, window: Window, day: Day): Instant {
    var span := RelaxedSpan(zone, doc, now, window, day);
    if span.Some? then span.value.until else now
  }

  /** Of two that restrict, the first is taken: it ends later, or as late and comes first in the document. */
  predicate Preferred(zone: Resolver, doc: Document, now: Instant, i: nat, day: Day, k: nat, other: Day)
    requires i < |doc.windows| && k < |doc.windows|
  {
    var a, b := Until(zone, doc, now, doc.windows[i], day), Until(zone, doc, now, doc.windows[k], other);
    b < a || (b == a && (i < k || (i == k && day <= other)))
  }

  /** The window at this place in the document, on this day, restricts, and over all days none is preferred to it. */
  ghost predicate Wins(zone: Resolver, doc: Document, now: Instant, i: nat, day: Day) {
    && i < |doc.windows| && Restricts(zone, doc, now, doc.windows[i], day)
    && forall k: nat, other: Day :: k < |doc.windows| && Restricts(zone, doc, now, doc.windows[k], other) ==>
         Preferred(zone, doc, now, i, day, k, other)
  }

  /** The same among the windows and days visited so far. */
  ghost predicate Leads(zone: Resolver, doc: Document, now: Instant, days: seq<Day>, k: nat, j: nat, i: nat, n: nat) {
    && i < |doc.windows| && Visited(i, n, |days|, k, j) && Restricts(zone, doc, now, doc.windows[i], days[n])
    && forall a: nat, b: nat ::
         a < |doc.windows| && Visited(a, b, |days|, k, j) && Restricts(zone, doc, now, doc.windows[a], days[b]) ==>
           Preferred(zone, doc, now, i, days[n], a, days[b])
  }

  predicate Ascending(days: seq<Day>) {
    forall m, n :: 0 <= m < n < |days| ==> days[m] < days[n]
  }

  lemma LeadsOn(
      zone: Resolver, doc: Document, now: Instant, days: seq<Day>, k: nat, j: nat, i: nat, n: nat)
    requires Ascending(days) && 0 < j <= |days| && k < |doc.windows| && Leads(zone, doc, now, days, k, j - 1, i, n)
    ensures var next := Restricts(zone, doc, now, doc.windows[k], days[j - 1])
                        && Until(zone, doc, now, doc.windows[k], days[j - 1])
                           > Until(zone, doc, now, doc.windows[i], days[n]);
            if next then Leads(zone, doc, now, days, k, j, k, j - 1) else Leads(zone, doc, now, days, k, j, i, n)
  {
    hide Restricts, Until;
    assert forall a: nat, b: nat ::
      Visited(a, b, |days|, k, j) <==> Visited(a, b, |days|, k, j - 1) || (a == k && b == j - 1);
  }

  /** What the contribution of one window on one day is worth to the running best. */
  lemma ContributedHit(zone: Resolver, doc: Document, now: Instant, window: Window, day: Day)
    ensures var hits := Contribute(zone, doc, now, window, day).hits;
            if Restricts(zone, doc, now, window, day)
            then hits == [Hit(window, day, RelaxedSpan(zone, doc, now, window, day).value)] else hits == []
  {
  }

  lemma LeadsSame(zone: Resolver, doc: Document, now: Instant, days: seq<Day>, k: nat, i: nat, n: nat)
    requires 0 < k && Leads(zone, doc, now, days, k - 1, |days|, i, n)
    ensures Leads(zone, doc, now, days, k, 0, i, n)
  {
    hide Restricts, Preferred;
    assert forall a: nat, b: nat :: Visited(a, b, |days|, k, 0) <==> Visited(a, b, |days|, k - 1, |days|);
  }

  ghost predicate BestSoFar(
      zone: Resolver, doc: Document, now: Instant, days: seq<Day>, k: nat, j: nat, best: Option<Hit>)
  {
    if best.None? then
      forall i: nat, n: nat :: i < |doc.windows| && Visited(i, n, |days|, k, j) ==>
        !Restricts(zone, doc, now, doc.windows[i], days[n])
    else
      exists i: nat, n: nat ::
        Leads(zone, doc, now, days, k, j, i, n) && best == Some(HitOf(zone, doc, now, doc.windows[i], days[n]))
  }

  /** The running best is the one that leads. */
  ghost predicate BestKnown(zone: Resolver, doc: Document, now: Instant, days: seq<Day>, k: nat, j: nat)
    requires k <= |doc.windows| && j <= |days| && (j > 0 ==> k < |doc.windows|)
  {
    BestSoFar(zone, doc, now, days, k, j, LatestEnding(Gather(zone, doc, now, days, k, j).hits))
  }

  function HitOf(zone: Resolver, doc: Document, now: Instant, window: Window, day: Day): Hit
    requires Restricts(zone, doc, now, window, day)
  {
    Hit(window, day, RelaxedSpan(zone, doc, now, window, day).value)
  }

  lemma Leader(zone: Resolver, doc: Document, now: Instant, days: seq<Day>, k: nat, j: nat, best: Option<Hit>)
    returns (i: nat, n: nat)
    requires best.Some? && BestSoFar(zone, doc, now, days, k, j, best)
    ensures i < |doc.windows| && n < |days| && Restricts(zone, doc, now, doc.windows[i], days[n])
    ensures Leads(zone, doc, now, days, k, j, i, n) && best == Some(HitOf(zone, doc, now, doc.windows[i], days[n]))
  {
    i, n :| Leads(zone, doc, now, days, k, j, i, n) && best == Some(HitOf(zone, doc, now, doc.windows[i], days[n]));
  }

  lemma BestNext(zone: Resolver, doc: Document, now: Instant, days: seq<Day>, k: nat, j: nat)
    requires Ascending(days) && 0 < j <= |days| && k < |doc.windows|
    requires BestKnown(zone, doc, now, days, k, j - 1)
    ensures BestKnown(zone, doc, now, days, k, j)
  {
    hide Restricts, Contribute, RelaxedSpan, Leads, Visited;
    var before := Gather(zone, doc, now, days, k, j - 1).hits;
    var after := Gather(zone, doc, now, days, k, j).hits;
    var best, w, day := LatestEnding(before), doc.windows[k], days[j - 1];
    ContributedHit(zone, doc, now, w, day);
    if Restricts(zone, doc, now, w, day) {
      var h := HitOf(zone, doc, now, w, day);
      assert after == before + [h] && after[..|after| - 1] == before;
      HitUntil(zone, doc, now, w, day);
    } else {
      assert after == before;
    }
    if best.None? {
      NothingLeads(zone, doc, now, days, k, j);
    } else {
      var i, n := Leader(zone, doc, now, days, k, j - 1, best);
      HitUntil(zone, doc, now, doc.windows[i], days[n]);
      LeadsOn(zone, doc, now, days, k, j, i, n);
    }
  }

  lemma HitUntil(zone: Resolver, doc: Document, now: Instant, window: Window, day: Day)
    requires Restricts(zone, doc, now, window, day)
    ensures HitOf(zone, doc, now, window, day).span.until == Until(zone, doc, now, window, day)
  {
  }

  lemma NothingLeads(zone: Resolver, doc: Document, now: Instant, days: seq<Day>, k: nat, j: nat)
    requires 0 < j <= |days| && k < |doc.windows|
    requires forall i: nat, n: nat :: i < |doc.windows| && Visited(i, n, |days|, k, j - 1) ==>
               !Restricts(zone, doc, now, doc.windows[i], days[n])
    ensures if Restricts(zone, doc, now, doc.windows[k], days[j - 1]) then Leads(zone, doc, now, days, k, j, k, j - 1)
            else forall i: nat, n: nat :: i < |doc.windows| && Visited(i, n, |days|, k, j) ==>
                   !Restricts(zone, doc, now, doc.windows[i], days[n])
  {
    hide Restricts, Until;
    assert forall a: nat, b: nat ::
      Visited(a, b, |days|, k, j) <==> Visited(a, b, |days|, k, j - 1) || (a == k && b == j - 1);
  }

  lemma {:induction false} BestLeads(zone: Resolver, doc: Document, now: Instant, days: seq<Day>, k: nat, j: nat)
    requires Ascending(days)
    requires k <= |doc.windows| && j <= |days| && (j > 0 ==> k < |doc.windows|)
    ensures BestKnown(zone, doc, now, days, k, j)
    decreases k, j
  {
    hide Restricts, Contribute, Leads, RelaxedSpan;
    if j > 0 {
      BestLeads(zone, doc, now, days, k, j - 1);
      BestNext(zone, doc, now, days, k, j);
    } else if k > 0 {
      BestLeads(zone, doc, now, days, k - 1, |days|);
      assert forall i: nat, n: nat :: Visited(i, n, |days|, k, 0) <==> Visited(i, n, |days|, k - 1, |days|);
      forall i: nat, n: nat | Leads(zone, doc, now, days, k - 1, |days|, i, n)
        ensures Leads(zone, doc, now, days, k, 0, i, n)
      {
        LeadsSame(zone, doc, now, days, k, i, n);
      }
    }
  }

  /**
    The winner, over windows on every local day: the one that ends latest; of those that end
    together the first in the document, and of one window's days the earlier.
   */
  lemma WinnerIsFirstLatest(zone: Resolver, doc: Document, now: Instant)
    requires Ordered(zone) && EvaluationOf(zone, doc, now).IsRestricted()
    ensures exists i: nat, day: Day ::
              && Wins(zone, doc, now, i, day)
              && var e, span := EvaluationOf(zone, doc, now), RelaxedSpan(zone, doc, now, doc.windows[i], day).value;
                 && e.activeWindow == Some(doc.windows[i])
                 && e.restrictedUntil == Some(span.until) && e.appliedOverrideIds == span.overrideIds
  {
    hide Restricts, Contribute, RelaxedSpan, Until, Gather;
    var days := DaysConsidered(zone, now);
    BestLeads(zone, doc, now, days, |doc.windows|, 0);
    var best := LatestEnding(Gather(zone, doc, now, days, |doc.windows|, 0).hits);
    var i, n := Leader(zone, doc, now, days, |doc.windows|, 0, best);
    forall k: nat, other: Day | k < |doc.windows| && Restricts(zone, doc, now, doc.windows[k], other)
      ensures Preferred(zone, doc, now, i, days[n], k, other)
    {
      TwoDaysSuffice(zone, doc, now, doc.windows[k], other);
      var m: nat :| m < |days| && days[m] == other;
      assert Visited(k, m, |days|, |doc.windows|, 0);
    }
    assert Wins(zone, doc, now, i, days[n]);
  }

  /** And there is only one such place and day. */
  lemma WinnerIsUnique(zone: Resolver, doc: Document, now: Instant, i: nat, day: Day, k: nat, other: Day)
    requires Wins(zone, doc, now, i, day) && Wins(zone, doc, now, k, other)
    ensures i == k && day == other
  {
    hide Restricts, Until;
    assert Preferred(zone, doc, now, i, day, k, other) && Preferred(zone, doc, now, k, other, i, day);
  }

  // ---- Relaxations only relax ---------------------------------------------------------------

  /**
    Converging stricter. Dropping any overrides, or reordering them, never un-restricts
    an instant, and never ends the restriction earlier.
   */
  lemma DroppingOverridesNeverRelaxes(
      zone: Resolver, doc: Document, fewer: seq<Override>, now: Instant)
    requires Ordered(zone) && multiset(fewer) <= multiset(doc.overrides)
    requires EvaluationOf(zone, doc, now).IsRestricted()
    ensures var e := EvaluationOf(zone, doc.(overrides := fewer), now);
            && e.IsRestricted()
            && EvaluationOf(zone, doc, now).restrictedUntil.value <= e.restrictedUntil.value
  {
    EvaluationMeaning(zone, doc, now);
    var stricter := doc.(overrides := fewer);
    EvaluationMeaning(zone, stricter, now);
    var before := EvaluationOf(zone, doc, now);
    var w := before.activeWindow.value;
    var d :| Restricts(zone, doc, now, w, d) && w in doc.windows
      && before.restrictedUntil == Some(RelaxedSpan(zone, doc, now, w, d).value.until);
    var raw := ResolveSpan(zone, w, d).value;
    OverridesClosedForm(doc.overrides, raw, w, d, now);
    OverridesClosedForm(fewer, raw, w, d, now);
    MoreOverridesExtendMore(fewer, doc.overrides, w, d, now);
    assert w in stricter.windows && Restricts(zone, stricter, now, w, d);
  }

  /** Once every override has expired the document behaves as if it had none. */
  lemma {:induction false} ExpiredOverridesDoNothing(
      overrides: seq<Override>, span: Span, window: Window, day: Day, now: Instant)
    requires forall o :: o in overrides ==> o.expiresAt <= now
    ensures AfterOverrides(overrides, span, window, day, now) == span
  {
    if overrides != [] {
      ExpiredOverridesDoNothing(overrides[..|overrides| - 1], span, window, day, now);
    }
  }

  lemma {:induction false} ExpiredGather(
      zone: Resolver, doc: Document, now: Instant, days: seq<Day>, k: nat, j: nat)
    requires forall o :: o in doc.overrides ==> o.expiresAt <= now
    requires k <= |doc.windows| && j <= |days| && (j > 0 ==> k < |doc.windows|)
    ensures Gather(zone, doc, now, days, k, j) == Gather(zone, doc.(overrides := []), now, days, k, j)
    decreases k, j
  {
    if j > 0 {
      ExpiredGather(zone, doc, now, days, k, j - 1);
      var raw := ResolveSpan(zone, doc.windows[k], days[j - 1]);
      if raw.Some? {
        ExpiredOverridesDoNothing(doc.overrides, raw.value, doc.windows[k], days[j - 1], now);
      }
    } else if k > 0 {
      ExpiredGather(zone, doc, now, days, k - 1, |days|);
    }
  }

  lemma PastLastExpiryIsTheSchedule(zone: Resolver, doc: Document, now: Instant)
    requires forall o :: o in doc.overrides ==> o.expiresAt <= now
    ensures EvaluationOf(zone, doc, now) == EvaluationOf(zone, doc.(overrides := []), now)
  {
    ExpiredGather(zone, doc, now, DaysConsidered(zone, now), |doc.windows|, 0);
  }
}
