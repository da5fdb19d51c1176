/**
  What the compiled overrides mean once the agent runs them. The source semantics says
  when each window restricts; the theorem says the agent on the compiled document does
  exactly that.
 */
module HolidayMeaning {
  import opened Basics
  import opened PolicyDocument
  import opened Sorting
  import opened Restriction
  import opened Compile
  import BP = BedtimePredicate
  import ZonedTime

  // ---- The source semantics -----------------------------------------------------------------------

  predicate IsHoliday(input: Input, day: Day) {
    day in input.holidays && WeekendWindow(input.windows).Some?
  }

  function UntilOf(agent: Resolver, w: WindowRow, day: Day): Instant {
    agent.instant(if w.CrossesMidnight() then day + 1 else day, w.until, RestrictedUntil)
  }

  /** On a holiday a window starts no earlier than the weekend's does. */
  function StartOf(agent: Resolver, input: Input, w: WindowRow, day: Day): Instant {
    var own := agent.instant(day, w.from, RestrictedFrom);
    if IsHoliday(input, day) then
      Max(own, agent.instant(day, WeekendWindow(input.windows).value.from, RestrictedFrom))
    else own
  }

  /** When the parent's rules restrict, with no mention of overrides. */
  predicate SourceRestricts(agent: Resolver, input: Input, now: Instant, w: WindowRow, day: Day) {
    WeekdayOf(day) in w.days && StartOf(agent, input, w, day) <= now < UntilOf(agent, w, day)
  }

  // ---- What the theorem asks of the zone and the rows ------------------------------------------------

  predicate DistinctIds(windows: seq<WindowRow>) {
    forall i, j :: 0 <= i < j < |windows| ==> windows[i].id != windows[j].id
  }

  predicate DistinctDates(dates: seq<Day>) {
    forall i, j :: 0 <= i < j < |dates| ==> dates[i] != dates[j]
  }

  /** Rows with distinct keys, and two clocks that agree what day it is. */
  ghost predicate HolidayInput(agent: Resolver, server: ServerZone, input: Input) {
    && Ordered(agent)
    && server.dayOf(input.now) == agent.dayOf(input.now)
    && DistinctIds(input.windows) && DistinctDates(input.holidays)
  }

  /** No exception and no grant is for this date. */
  predicate PlainDate(input: Input, day: Day) {
    && (forall e :: e in input.exceptions ==> e.day != day)
    && (forall g :: g in input.grants ==> g.effectiveDate != day)
  }

  /**
    The extension lands where the weekend would have started, as far as the window runs,
    and does not expire before it has done its work. Told from five instants alone.
   */
  predicate Translates(agent: Resolver, server: ServerZone, input: Input, w: WindowRow, day: Day) {
    var own, until := agent.instant(day, w.from, RestrictedFrom), UntilOf(agent, w, day);
    var start, expiry := StartOf(agent, input, w, day), WindowEnd(server, w, day);
    IsHoliday(input, day) ==>
      var gap := WeekendWindow(input.windows).value.from - w.from;
      if gap <= 0 then start == own || until <= own
      else
        var moved, limit := own + Min(gap, WindowDuration(w)) * MINUTE, Min(until, expiry);
        && Min(start, until) <= Max(expiry, own)
        && (own < expiry ==> Min(moved, limit) == Min(start, limit))
  }

  /** The nights an instant can fall in are free of exceptions and grants, and translate if holidays. */
  predicate NightsTranslate(agent: Resolver, server: ServerZone, input: Input, now: Instant) {
    forall d :: d in BP.DaysConsidered(agent, now) ==>
      PlainDate(input, d) && (InHorizon(server.dayOf(input.now), d) ==> AllTranslate(agent, server, input, d))
  }

  predicate AllTranslate(agent: Resolver, server: ServerZone, input: Input, day: Day) {
    forall w :: w in input.windows && WeekdayOf(day) in w.days ==> Translates(agent, server, input, w, day)
  }

  // ---- Extensions of synthesised drafts ----------------------------------------------------------------

  lemma {:induction false} ExtensionAppends(a: seq<Override>, b: seq<Override>, w: Window, day: Day, now: Instant)
    ensures BP.TotalExtension(a + b, w, day, now)
            == BP.TotalExtension(a, w, day, now) + BP.TotalExtension(b, w, day, now)
  {
    if b == [] {
      assert a + b == a;
    } else {
      assert (a + b)[..|a + b| - 1] == a + b[..|b| - 1];
      ExtensionAppends(a, b[..|b| - 1], w, day, now);
    }
  }

  /** The extension one window's draft is worth to a window on a day. */
  function DraftWorth(
      server: ServerZone, u: WindowRow, date: Day, weekendStart: Minute, w: WindowRow, day: Day, now: Instant): int
  {
    if u.id == w.id && date == day && WeekdayOf(date) in u.days && u.from < weekendStart
       && WindowEnd(server, u, date) > now
    then Min(weekendStart - u.from, WindowDuration(u)) * MINUTE
    else 0
  }

  lemma DraftExtension(
      server: ServerZone, u: WindowRow, date: Day, weekendStart: Minute, origin: Origin,
      w: WindowRow, day: Day, now: Instant)
    ensures BP.TotalExtension(WeekendDraft(server, u, date, weekendStart, origin), ToWindow(w), day, now)
            == DraftWorth(server, u, date, weekendStart, w, day, now)
  {
    var drafts := WeekendDraft(server, u, date, weekendStart, origin);
    if drafts != [] {
      assert drafts[..0] == [];
      assert BP.TotalExtension(drafts, ToWindow(w), day, now)
        == BP.TotalExtension([], ToWindow(w), day, now) + BP.Extension(drafts[0], ToWindow(w), day, now);
    }
  }

  /** Among distinct windows only the one asked about has a draft worth anything to it. */
  lemma {:induction false} WindowDraftsExtension(
      server: ServerZone, windows: seq<WindowRow>, date: Day, weekendStart: Minute, origin: Origin,
      w: WindowRow, day: Day, now: Instant)
    requires DistinctIds(windows)
    requires forall u :: u in windows && u.id == w.id ==> u == w
    ensures BP.TotalExtension(
              FlatMap((u: WindowRow) => WeekendDraft(server, u, date, weekendStart, origin), windows),
              ToWindow(w), day, now)
            == if w in windows then DraftWorth(server, w, date, weekendStart, w, day, now) else 0
  {
    if windows != [] {
      var front, u := windows[..|windows| - 1], windows[|windows| - 1];
      var draft := (u: WindowRow) => WeekendDraft(server, u, date, weekendStart, origin);
      WindowDraftsExtension(server, front, date, weekendStart, origin, w, day, now);
      ExtensionAppends(FlatMap(draft, front), draft(u), ToWindow(w), day, now);
      DraftExtension(server, u, date, weekendStart, origin, w, day, now);
      assert windows == front + [u];
    }
  }

  /** The extension one holiday date's drafts are worth to a window on a day. */
  function HolidayWorth(server: ServerZone, input: Input, date: Day, w: WindowRow, day: Day, now: Instant): int {
    var weekend := WeekendWindow(input.windows);
    if weekend.Some? && InHorizon(server.dayOf(input.now), date)
    then DraftWorth(server, w, date, weekend.value.from, w, day, now) else 0
  }

  lemma SameIdSameRow(windows: seq<WindowRow>, w: WindowRow)
    requires DistinctIds(windows) && w in windows
    ensures forall u :: u in windows && u.id == w.id ==> u == w
  {
  }

  /** Overrides none of which moves this window on this day come to nothing. */
  lemma {:induction false} WorthlessTogether(drafts: seq<Override>, w: Window, day: Day, now: Instant)
    requires forall o :: o in drafts ==> BP.Extension(o, w, day, now) == 0
    ensures BP.TotalExtension(drafts, w, day, now) == 0
  {
    if drafts != [] {
      var front, last := drafts[..|drafts| - 1], drafts[|drafts| - 1];
      assert drafts == front + [last];
      WorthlessTogether(front, w, day, now);
    }
  }

  lemma HolidayDraftIsFor(server: ServerZone, input: Input, date: Day, o: Override)
    requires o in HolidayDrafts(server, input, date)
    ensures o.effectiveDate == Some(date) && o.kind.Extend?
  {
    var w := WeekendDraftSource(server, input.windows, date, ByHoliday(input.child), o);
  }

  lemma {:induction false} HolidaysExtension(
      server: ServerZone, input: Input, holidays: seq<Day>, w: WindowRow, day: Day, now: Instant)
    requires PlainDate(input, day) && DistinctIds(input.windows) && DistinctDates(holidays) && w in input.windows
    ensures BP.TotalExtension(
              FlatMap((d: Day) => HolidayDrafts(server, input, d), holidays), ToWindow(w), day, now)
            == if day in holidays then HolidayWorth(server, input, day, w, day, now) else 0
  {
    if holidays != [] {
      var front, date := holidays[..|holidays| - 1], holidays[|holidays| - 1];
      var drafts := (d: Day) => HolidayDrafts(server, input, d);
      HolidaysExtension(server, input, front, w, day, now);
      ExtensionAppends(FlatMap(drafts, front), drafts(date), ToWindow(w), day, now);
      OneHolidayExtension(server, input, date, w, day, now);
      assert holidays == front + [date];
    }
  }

  lemma OneHolidayExtension(server: ServerZone, input: Input, date: Day, w: WindowRow, day: Day, now: Instant)
    requires PlainDate(input, day) && DistinctIds(input.windows) && w in input.windows
    ensures BP.TotalExtension(HolidayDrafts(server, input, date), ToWindow(w), day, now)
            == HolidayWorth(server, input, date, w, day, now)
  {
    var weekend := WeekendWindow(input.windows);
    if date != day {
      forall o | o in HolidayDrafts(server, input, date) ensures BP.Extension(o, ToWindow(w), day, now) == 0 {
        HolidayDraftIsFor(server, input, date, o);
      }
      WorthlessTogether(HolidayDrafts(server, input, date), ToWindow(w), day, now);
    } else if InHorizon(server.dayOf(input.now), date) && weekend.Some? {
      SameIdSameRow(input.windows, w);
      WindowDraftsExtension(server, input.windows, date, weekend.value.from, ByHoliday(input.child), w, day, now);
    }
  }

  /** Dropping what had expired at compile time changes no extension later on. */
  lemma {:induction false} KeepingLiveKeepsExtension(
      drafts: seq<Override>, compiledAt: Instant, w: Window, day: Day, now: Instant)
    requires compiledAt <= now
    ensures BP.TotalExtension(Keep((o: Override) => o.expiresAt > compiledAt, drafts), w, day, now)
            == BP.TotalExtension(drafts, w, day, now)
  {
    if drafts != [] {
      var front, o := drafts[..|drafts| - 1], drafts[|drafts| - 1];
      KeepingLiveKeepsExtension(front, compiledAt, w, day, now);
      var kept := Keep((o: Override) => o.expiresAt > compiledAt, front);
      if o.expiresAt > compiledAt {
        ExtensionAppends(kept, [o], w, day, now);
        assert [o][..0] == [];
        assert BP.TotalExtension([o], w, day, now) == BP.TotalExtension([], w, day, now) + BP.Extension(o, w, day, now);
      } else {
        assert kept + [] == kept;
      }
    }
  }

  /** Two override lists with the same rows relax alike. */
  lemma SameRowsExtendAlike(a: seq<Override>, b: seq<Override>, w: Window, day: Day, now: Instant)
    requires multiset(a) == multiset(b)
    ensures BP.TotalExtension(a, w, day, now) == BP.TotalExtension(b, w, day, now)
    ensures BP.Suspended(a, w, day, now) == BP.Suspended(b, w, day, now)
  {
    BP.MoreOverridesExtendMore(a, b, w, day, now);
    BP.MoreOverridesExtendMore(b, a, w, day, now);
  }

  /** From the compile on, the compiled overrides relax as all the drafts would. */
  lemma CompiledAsDrafted(
      idBefore: (OverrideId, OverrideId) -> bool, server: ServerZone, input: Input, w: Window, day: Day, now: Instant)
    requires input.now <= now
    ensures var doc := Compiled(idBefore, server, input);
            && BP.TotalExtension(doc.overrides, w, day, now) == BP.TotalExtension(Drafts(server, input), w, day, now)
            && (BP.Suspended(doc.overrides, w, day, now) <==> BP.Suspended(Drafts(server, input), w, day, now))
  {
    var live := LiveDrafts(server, input);
    var doc := Compiled(idBefore, server, input);
    SortKeepsRows((a: Override, b: Override) => OverrideBefore(idBefore, a, b), live);
    SameRowsExtendAlike(doc.overrides, live, w, day, now);
    KeepingLiveKeepsExtension(Drafts(server, input), input.now, w, day, now);
    forall o: Override | o.expiresAt > now
      ensures o in doc.overrides <==> o in Drafts(server, input)
    {
      CompiledOverride(idBefore, server, input, o);
    }
  }

  /** On a plain date only the holiday drafts of that date bear on a window. */
  lemma PlainDraft(server: ServerZone, input: Input, o: Override, day: Day)
    requires PlainDate(input, day) && o in Drafts(server, input) && o.effectiveDate == Some(day)
    ensures day in input.holidays && o in HolidayDrafts(server, input, day) && o.kind.Extend?
  {
    var from := DraftProvenance(server, input, o);
    DraftDate(server, input, o, from);
    if from.OfHoliday? {
      HolidayDraftIsFor(server, input, day, o);
    }
  }

  lemma PlainExtension(server: ServerZone, input: Input, w: WindowRow, day: Day, now: Instant)
    requires PlainDate(input, day) && DistinctIds(input.windows) && DistinctDates(input.holidays) && w in input.windows
    ensures BP.TotalExtension(Drafts(server, input), ToWindow(w), day, now)
            == if day in input.holidays then HolidayWorth(server, input, day, w, day, now) else 0
  {
    hide ExceptionsInHorizon, ExceptionDrafts, HolidayDrafts, HolidayWorth, FlatMap, BP.TotalExtension;
    var grants, exceptions := MapRows(GrantOverride, input.grants), ExceptionsInHorizon(server, input);
    var holidays := FlatMap((d: Day) => HolidayDrafts(server, input, d), input.holidays);
    forall o | o in grants + exceptions ensures BP.Extension(o, ToWindow(w), day, now) == 0 {
      ParentDraftIsElsewhere(server, input, o, day);
    }
    WorthlessTogether(grants + exceptions, ToWindow(w), day, now);
    ExtensionAppends(grants + exceptions, holidays, ToWindow(w), day, now);
    assert Drafts(server, input) == grants + exceptions + holidays;
    HolidaysExtension(server, input, input.holidays, w, day, now);
  }

  lemma ParentDraftIsElsewhere(server: ServerZone, input: Input, o: Override, day: Day)
    requires PlainDate(input, day)
    requires o in MapRows(GrantOverride, input.grants) + ExceptionsInHorizon(server, input)
    ensures o.effectiveDate != Some(day)
  {
    if o in MapRows(GrantOverride, input.grants) {
      var g := MapSource(GrantOverride, input.grants, o);
    } else {
      var e := FlatMapSource(
        (e: ExceptionRow) =>
          if InHorizon(server.dayOf(input.now), e.day) then ExceptionDrafts(server, input.windows, e) else [],
        input.exceptions, o);
      ExceptionDraftDate(server, input.windows, e, o);
    }
  }

  /** What the compiled document's overrides come to for one window on one plain date. */
  lemma CompiledRelaxation(
      idBefore: (OverrideId, OverrideId) -> bool, server: ServerZone, input: Input,
      w: WindowRow, day: Day, now: Instant)
    requires PlainDate(input, day)
    requires DistinctIds(input.windows) && DistinctDates(input.holidays)
    requires w in input.windows && input.now <= now
    ensures var doc := Compiled(idBefore, server, input);
            && !BP.Suspended(doc.overrides, ToWindow(w), day, now)
            && BP.TotalExtension(doc.overrides, ToWindow(w), day, now)
               == if day in input.holidays then HolidayWorth(server, input, day, w, day, now) else 0
  {
    hide Compiled, Drafts, HolidayDrafts, HolidayWorth;
    CompiledAsDrafted(idBefore, server, input, ToWindow(w), day, now);
    PlainExtension(server, input, w, day, now);
    forall o | o in Drafts(server, input) && o.effectiveDate == Some(day) ensures o.kind.Extend? {
      PlainDraft(server, input, o, day);
    }
  }

  // ---- The translation preserves meaning -------------------------------------------------------------------

  /** A window's span on the agent, from the row. */
  lemma RowSpan(agent: Resolver, w: WindowRow, day: Day)
    requires Ordered(agent)
    ensures BP.ResolveSpan(agent, ToWindow(w), day)
            == if WeekdayOf(day) in w.days
               then Some(BP.Span(agent.instant(day, w.from, RestrictedFrom), UntilOf(agent, w, day), []))
               else None
  {
  }

  /** The agent, running the document compiled from these rows, is held by this window of this day. */
  predicate RunsRestricted(
      idBefore: (OverrideId, OverrideId) -> bool, agent: Resolver, server: ServerZone, input: Input, now: Instant,
      w: WindowRow, day: Day)
  {
    BP.Restricts(agent, Compiled(idBefore, server, input), now, ToWindow(w), day)
  }

  /** How the agent runs a compiled holiday night. */
  lemma AgentOnHoliday(
      idBefore: (OverrideId, OverrideId) -> bool, agent: Resolver, server: ServerZone, input: Input,
      w: WindowRow, day: Day, now: Instant)
    requires HolidayInput(agent, server, input) && w in input.windows && WeekdayOf(day) in w.days
    requires PlainDate(input, day) && IsHoliday(input, day) && input.now <= now
    ensures RunsRestricted(idBefore, agent, server, input, now, w, day)
            <==> agent.instant(day, w.from, RestrictedFrom) + HolidayWorth(server, input, day, w, day, now)
                 <= now < UntilOf(agent, w, day)
  {
    hide Compiled, WeekendWindow, HolidayWorth, BP.ResolveSpan, BP.AfterOverrides, BP.TotalExtension, BP.Suspended;
    var doc := Compiled(idBefore, server, input);
    RowSpan(agent, w, day);
    BP.OverridesClosedForm(doc.overrides, BP.ResolveSpan(agent, ToWindow(w), day).value, ToWindow(w), day, now);
    CompiledRelaxation(idBefore, server, input, w, day, now);
    WorthIsNotNegative(server, input, w, day, now);
  }

  lemma WorthIsNotNegative(server: ServerZone, input: Input, w: WindowRow, day: Day, now: Instant)
    ensures HolidayWorth(server, input, day, w, day, now) >= 0
  {
  }

  /** On a night that translates, the extension is worth the gap at every instant. */
  lemma HolidayAhead(agent: Resolver, server: ServerZone, input: Input, w: WindowRow, day: Day, now: Instant)
    requires IsHoliday(input, day) && InHorizon(server.dayOf(input.now), day) && WeekdayOf(day) in w.days
    requires Translates(agent, server, input, w, day)
    ensures var own := agent.instant(day, w.from, RestrictedFrom);
            now < UntilOf(agent, w, day) ==>
              (own + HolidayWorth(server, input, day, w, day, now) <= now <==> StartOf(agent, input, w, day) <= now)
  {
    hide WeekendWindow, UntilOf;
  }

  /** And on one that does not, some instant of the night shows it. */
  lemma MistranslatedAt(agent: Resolver, server: ServerZone, input: Input, w: WindowRow, day: Day)
    returns (now: Instant)
    requires IsHoliday(input, day) && InHorizon(server.dayOf(input.now), day) && WeekdayOf(day) in w.days
    requires !Translates(agent, server, input, w, day)
    ensures var own, until := agent.instant(day, w.from, RestrictedFrom), UntilOf(agent, w, day);
            && own <= now < until
            && !(own + HolidayWorth(server, input, day, w, day, now) <= now <==> StartOf(agent, input, w, day) <= now)
  {
    hide WeekendWindow, UntilOf;
    var own, until := agent.instant(day, w.from, RestrictedFrom), UntilOf(agent, w, day);
    var start, expiry := StartOf(agent, input, w, day), WindowEnd(server, w, day);
    var gap := WeekendWindow(input.windows).value.from - w.from;
    if gap <= 0 {
      now := own;
    } else if Min(start, until) > Max(expiry, own) {
      now := Max(expiry, own);
    } else {
      var moved, limit := own + Min(gap, WindowDuration(w)) * MINUTE, Min(until, expiry);
      now := Min(Min(moved, limit), Min(start, limit));
    }
  }

  /**
    A compiled holiday night means what the parent's rule means, at every instant from the
    compile on, exactly when it translates.
   */
  lemma HolidayNightExactly(
      idBefore: (OverrideId, OverrideId) -> bool, agent: Resolver, server: ServerZone, input: Input, w: WindowRow,
      day: Day)
    requires HolidayInput(agent, server, input) && w in input.windows && WeekdayOf(day) in w.days
    requires PlainDate(input, day) && IsHoliday(input, day) && InHorizon(server.dayOf(input.now), day)
    requires input.now <= agent.instant(day, w.from, RestrictedFrom)
    ensures (forall now :: input.now <= now ==>
               (RunsRestricted(idBefore, agent, server, input, now, w, day)
                <==> SourceRestricts(agent, input, now, w, day)))
            <==> Translates(agent, server, input, w, day)
  {
    hide Compiled, Translates, HolidayWorth, StartOf, BP.Restricts, HolidayInput;
    if Translates(agent, server, input, w, day) {
      forall now | input.now <= now
        ensures RunsRestricted(idBefore, agent, server, input, now, w, day)
                <==> SourceRestricts(agent, input, now, w, day)
      {
        AgentOnHoliday(idBefore, agent, server, input, w, day, now);
        HolidayAhead(agent, server, input, w, day, now);
      }
    } else {
      var now := MistranslatedAt(agent, server, input, w, day);
      AgentOnHoliday(idBefore, agent, server, input, w, day, now);
      assert !(RunsRestricted(idBefore, agent, server, input, now, w, day)
               <==> SourceRestricts(agent, input, now, w, day));
    }
  }

  /**
    One window on one day: the agent running the compiled holidays restricts exactly
    from the later of the window's own start and the weekend's until the window's end,
    at every instant from the compile on, and not at all when that is no time. Even a
    holiday already dropped from the horizon loses nothing: its weekend start has passed.
   */
  lemma HolidayPreserved(
      idBefore: (OverrideId, OverrideId) -> bool, agent: Resolver, server: ServerZone, input: Input,
      w: WindowRow, day: Day, now: Instant)
    requires HolidayInput(agent, server, input) && w in input.windows && input.now <= now
    requires PlainDate(input, day)
    requires InHorizon(server.dayOf(input.now), day) && WeekdayOf(day) in w.days
             ==> Translates(agent, server, input, w, day)
    requires agent.dayOf(now) <= agent.dayOf(input.now) + HORIZON_DAYS
    ensures RunsRestricted(idBefore, agent, server, input, now, w, day)
            <==> SourceRestricts(agent, input, now, w, day)
  {
    hide Compiled, WeekendWindow, Translates, BP.ResolveSpan, BP.AfterOverrides, BP.TotalExtension, BP.Suspended;
    var doc := Compiled(idBefore, server, input);
    var today := agent.dayOf(input.now);
    RowSpan(agent, w, day);
    if WeekdayOf(day) in w.days {
      var raw := BP.ResolveSpan(agent, ToWindow(w), day).value;
      BP.OverridesClosedForm(doc.overrides, raw, ToWindow(w), day, now);
      CompiledRelaxation(idBefore, server, input, w, day, now);
      if day < today && IsHoliday(input, day) {
        assert agent.instant(day, WeekendWindow(input.windows).value.from, RestrictedFrom) <= input.now;
      } else if day > today + HORIZON_DAYS {
        assert now < raw.from;
      } else if IsHoliday(input, day) {
        HolidayAhead(agent, server, input, w, day, now);
      }
    }
  }

  /** By the source rules too, only yesterday's and today's windows bear on an instant. */
  lemma SourceIsRecent(agent: Resolver, input: Input, now: Instant, w: WindowRow, day: Day)
    requires Ordered(agent) && SourceRestricts(agent, input, now, w, day)
    ensures day in BP.DaysConsidered(agent, now)
  {
    var untilDay := if w.CrossesMidnight() then day + 1 else day;
    assert agent.instant(day, w.from, RestrictedFrom) <= now < agent.instant(untilDay, w.until, RestrictedUntil);
    assert !(agent.dayOf(now) < day) && !(untilDay < agent.dayOf(now));
  }

  /**
    The whole document: at every instant whose own date and the one before it hold no
    exception and no grant, the agent is restricted exactly when some window of some day is,
    holidays included. Other dates may hold any.
   */
  lemma CompiledHolidaysMeanTheSource(
      idBefore: (OverrideId, OverrideId) -> bool, agent: Resolver, server: ServerZone, input: Input, now: Instant)
    requires HolidayInput(agent, server, input) && NightsTranslate(agent, server, input, now)
    requires input.now <= now && agent.dayOf(now) <= agent.dayOf(input.now) + HORIZON_DAYS
    ensures BP.EvaluationOf(agent, Compiled(idBefore, server, input), now).IsRestricted()
            <==> exists w, day :: w in input.windows && SourceRestricts(agent, input, now, w, day)
  {
    hide Compiled, SourceRestricts, Translates, PlainDate, BP.Restricts, BP.EvaluationOf, BP.DaysConsidered;
    var doc := Compiled(idBefore, server, input);
    BP.EvaluationMeaning(agent, doc, now);
    CompiledWindows(idBefore, server, input);
    if w, day :| w in input.windows && SourceRestricts(agent, input, now, w, day) {
      SourceIsRecent(agent, input, now, w, day);
      HolidayPreserved(idBefore, agent, server, input, w, day, now);
      assert ToWindow(w) in doc.windows;
    }
    if window, day :| window in doc.windows && BP.Restricts(agent, doc, now, window, day) {
      BP.TwoDaysSuffice(agent, doc, now, window, day);
      var w :| w in input.windows && window == ToWindow(w);
      HolidayPreserved(idBefore, agent, server, input, w, day, now);
    }
  }

  lemma {:induction false} MapRowsMembers<A(!new), B(!new)>(f: A -> B, rows: seq<A>)
    ensures forall a :: a in rows ==> f(a) in MapRows(f, rows)
    ensures forall b :: b in MapRows(f, rows) ==> exists a :: a in rows && b == f(a)
  {
    if rows != [] {
      var front, last := rows[..|rows| - 1], rows[|rows| - 1];
      assert rows == front + [last];
      MapRowsMembers(f, front);
      assert MapRows(f, rows) == MapRows(f, front) + [f(last)];
      forall b | b in MapRows(f, rows) ensures exists a :: a in rows && b == f(a) {
        if b in MapRows(f, front) {
          var a :| a in front && b == f(a);
          assert a in rows;
        } else {
          assert last in rows && b == f(last);
        }
      }
    }
  }

  lemma CompiledWindows(idBefore: (OverrideId, OverrideId) -> bool, server: ServerZone, input: Input)
    ensures var doc := Compiled(idBefore, server, input);
            && (forall w :: w in input.windows ==> ToWindow(w) in doc.windows)
            && (forall window :: window in doc.windows ==> exists w :: w in input.windows && window == ToWindow(w))
  {
    var sorted := Sort(RowBefore, input.windows);
    SortKeepsRows(RowBefore, input.windows);
    forall w: WindowRow ensures w in sorted <==> w in input.windows {
      assert w in multiset(sorted) <==> w in multiset(input.windows);
    }
    MapRowsMembers(ToWindow, sorted);
  }

  // ---- In a concrete zone ------------------------------------------------------------------------------------

  /** The offset does not change from this day's midnight to the next. */
  predicate CleanDay(z: ZonedTime.Zone, day: Day) {
    || (ZonedTime.ExistsBefore(z, day + 1, 0) && !ZonedTime.ExistsAfter(z, day + 1, 0))
    || (ZonedTime.ExistsAfter(z, day, 0) && !ZonedTime.ExistsBefore(z, day, 0))
  }

  lemma CleanTimeIsNaive(z: ZonedTime.Zone, day: Day, minute: Minute, kind: BoundaryKind)
    requires ZonedTime.Plausible(z)
    requires ZonedTime.ExistsBefore(z, day, minute) != ZonedTime.ExistsAfter(z, day, minute)
    ensures var offset := if ZonedTime.ExistsBefore(z, day, minute) then z.before else z.after;
            && ZonedTime.ServerInstant(z, day, minute) == ZonedTime.Naive(day, minute) - offset
            && ZonedTime.AgentInstant(z, day, minute, kind) == ZonedTime.Naive(day, minute) - offset
  {
    hide ZonedTime.AgentInstant, ZonedTime.ServerInstant;
    ZonedTime.ServerReading(z, day, minute);
    ZonedTime.ResolversAgreeExactly(z, day, minute, kind);
  }

  /** On a clean day every time is as far past midnight as the clock says, for both resolvers. */
  lemma CleanDayIsEven(z: ZonedTime.Zone, day: Day, minute: Minute, kind: BoundaryKind)
    requires ZonedTime.Plausible(z) && CleanDay(z, day)
    ensures var midnight := ZonedTime.ServerInstant(z, day, 0);
            && ZonedTime.AgentInstant(z, day, minute, kind) == midnight + minute * MINUTE
            && ZonedTime.ServerInstant(z, day, minute) == midnight + minute * MINUTE
  {
    CleanTimeIsNaive(z, day, 0, RestrictedFrom);
    CleanTimeIsNaive(z, day, minute, kind);
  }

  lemma NextMidnight(z: ZonedTime.Zone, day: Day)
    requires ZonedTime.Plausible(z) && CleanDay(z, day)
    ensures ZonedTime.ServerInstant(z, day + 1, 0) == ZonedTime.ServerInstant(z, day, 0) + DAY
  {
    CleanTimeIsNaive(z, day, 0, RestrictedFrom);
    CleanTimeIsNaive(z, day + 1, 0, RestrictedFrom);
  }

  /** A night with no offset change in it translates. */
  lemma CleanNightTranslates(z: ZonedTime.Zone, input: Input, w: WindowRow, day: Day)
    requires ZonedTime.Plausible(z) && CleanDay(z, day) && CleanDay(z, day + 1)
    ensures Translates(ZonedTime.AgentResolver(z), ZonedTime.ServerResolver(z), input, w, day)
  {
    hide ZonedTime.AgentInstant, ZonedTime.ServerInstant, ZonedTime.Plausible, CleanDay, WeekendWindow;
    CleanDayIsEven(z, day, w.from, RestrictedFrom);
    NextMidnight(z, day);
    CleanDayIsEven(z, if w.CrossesMidnight() then day + 1 else day, w.until, RestrictedUntil);
    if IsHoliday(input, day) {
      CleanDayIsEven(z, day, WeekendWindow(input.windows).value.from, RestrictedFrom);
    }
  }

  /** No exception or grant for the date and, if it is a holiday, no offset change through its night. */
  predicate CleanNight(z: ZonedTime.Zone, input: Input, day: Day) {
    PlainDate(input, day) && (day in input.holidays ==> CleanDay(z, day) && CleanDay(z, day + 1))
  }

  /** The theorem with both resolvers' own rules: the holidays in play need only lie off the change. */
  lemma CompiledHolidaysMeanTheSourceInZone(
      idBefore: (OverrideId, OverrideId) -> bool, z: ZonedTime.Zone, input: Input, now: Instant)
    requires ZonedTime.Plausible(z) && ZonedTime.KeepsItsDay(z)
    requires DistinctIds(input.windows) && DistinctDates(input.holidays)
    requires CleanNight(z, input, z.DayOf(now) - 1) && CleanNight(z, input, z.DayOf(now))
    requires input.now <= now && z.DayOf(now) <= z.DayOf(input.now) + HORIZON_DAYS
    ensures var agent, server := ZonedTime.AgentResolver(z), ZonedTime.ServerResolver(z);
            BP.EvaluationOf(agent, Compiled(idBefore, server, input), now).IsRestricted()
            <==> exists w, day :: w in input.windows && SourceRestricts(agent, input, now, w, day)
  {
    hide Compiled, SourceRestricts, PlainDate, StartOf, BP.EvaluationOf, Ordered, ZonedTime.Plausible,
      ZonedTime.KeepsItsDay, CleanDay;
    var agent, server := ZonedTime.AgentResolver(z), ZonedTime.ServerResolver(z);
    ZonedTime.AgentResolverIsOrdered(z);
    forall d, w | d in BP.DaysConsidered(agent, now) && w in input.windows
      ensures Translates(agent, server, input, w, d)
    {
      assert CleanNight(z, input, d);
      if d in input.holidays {
        CleanNightTranslates(z, input, w, d);
      }
    }
    CompiledHolidaysMeanTheSource(idBefore, agent, server, input, now);
  }

  /**
    A night the clock makes an hour longer does not translate: the extension is capped at the
    window's length by the clock, so a window the weekend would leave free restricts for its
    last hour.
   */
  lemma LongNightKeepsItsLastHour(
      idBefore: (OverrideId, OverrideId) -> bool, input: Input, w: WindowRow, weekend: WindowRow, now: Instant)
    requires w.from == 60 && w.until == 240 && weekend.from == 300 && WeekdayOf(0) in w.days
    requires w in input.windows && WeekendWindow(input.windows) == Some(weekend)
    requires DistinctIds(input.windows) && input.holidays == [0] && PlainDate(input, 0)
    requires var z := ZonedTime.Zone(2 * HOUR, HOUR, HOUR);
             input.now <= -HOUR && InHorizon(z.DayOf(input.now), 0)
    ensures var z := ZonedTime.Zone(2 * HOUR, HOUR, HOUR);
            var agent, server := ZonedTime.AgentResolver(z), ZonedTime.ServerResolver(z);
            && ZonedTime.Plausible(z) && ZonedTime.KeepsItsDay(z)
            && !SourceRestricts(agent, input, now, w, 0)
            && (input.now <= now ==>
                  (RunsRestricted(idBefore, agent, server, input, now, w, 0)
                   <==> 2 * HOUR <= now < 3 * HOUR))
  {
    hide Compiled, WeekendWindow, PlainDate;
    var z := ZonedTime.Zone(2 * HOUR, HOUR, HOUR);
    var agent, server := ZonedTime.AgentResolver(z), ZonedTime.ServerResolver(z);
    assert ZonedTime.Plausible(z) && ZonedTime.KeepsItsDay(z);
    ZonedTime.AgentResolverIsOrdered(z);
    LongNightInstants();
    if input.now <= now {
      AgentOnHoliday(idBefore, agent, server, input, w, 0, now);
    }
  }

  lemma LongNightInstants()
    ensures var z := ZonedTime.Zone(2 * HOUR, HOUR, HOUR);
            && ZonedTime.AgentInstant(z, 0, 60, RestrictedFrom) == -HOUR
            && ZonedTime.AgentInstant(z, 0, 240, RestrictedUntil) == 3 * HOUR
            && ZonedTime.AgentInstant(z, 0, 300, RestrictedFrom) == 4 * HOUR
            && ZonedTime.ServerInstant(z, 0, 240) == 3 * HOUR
  {
  }

  // ---- "No bedtime" ----------------------------------------------------------------------------------------------

  /** The one exception of its date, with no grant for it. */
  predicate OnlyException(input: Input, e: ExceptionRow) {
    && e in input.exceptions
    && (forall f :: f in input.exceptions && f.day == e.day ==> f == e)
    && (forall g :: g in input.grants ==> g.effectiveDate != e.day)
  }

  /** Every draft bearing on a spoken-for date is that exception's. */
  lemma SpokenDraft(server: ServerZone, input: Input, e: ExceptionRow, o: Override)
    requires OnlyException(input, e) && InHorizon(server.dayOf(input.now), e.day)
    requires o in Drafts(server, input) && o.effectiveDate == Some(e.day)
    ensures o in ExceptionDrafts(server, input.windows, e)
  {
    var from := DraftProvenance(server, input, o);
    DraftDate(server, input, o, from);
    assert SpokenFor(server.dayOf(input.now), input.exceptions, e.day);
  }

  lemma ExceptionIsDrafted(server: ServerZone, input: Input, e: ExceptionRow, o: Override)
    requires e in input.exceptions && InHorizon(server.dayOf(input.now), e.day)
    requires o in ExceptionDrafts(server, input.windows, e)
    ensures o in Drafts(server, input)
  {
    FlatMapHas(
      (e: ExceptionRow) =>
        if InHorizon(server.dayOf(input.now), e.day) then ExceptionDrafts(server, input.windows, e) else [],
      input.exceptions, e, o);
  }

  /** How the agent runs a compiled "no bedtime": each window it names is free until its expiry. */
  lemma AgentOnNoBedtime(
      idBefore: (OverrideId, OverrideId) -> bool, agent: Resolver, server: ServerZone, input: Input,
      e: ExceptionRow, w: WindowRow, now: Instant)
    requires Ordered(agent) && OnlyException(input, e) && e.effect.NoBedtime?
    requires InHorizon(server.dayOf(input.now), e.day) && input.now <= now && WeekdayOf(e.day) in w.days
    ensures RunsRestricted(idBefore, agent, server, input, now, w, e.day)
            <==> && agent.instant(e.day, w.from, RestrictedFrom) <= now < UntilOf(agent, w, e.day)
                 && !((e.windowId.None? || e.windowId.value == w.id) && now < ExceptionExpiry(server, input.windows, e))
  {
    hide Compiled, Drafts, UntilOf, ExceptionExpiry, BP.AfterOverrides, BP.ResolveSpan;
    var drafts, window := Drafts(server, input), ToWindow(w);
    RowSpan(agent, w, e.day);
    BP.OverridesClosedForm(Compiled(idBefore, server, input).overrides,
                           BP.ResolveSpan(agent, window, e.day).value, window, e.day, now);
    CompiledAsDrafted(idBefore, server, input, window, e.day, now);
    var o := ExceptionDrafts(server, input.windows, e)[0];
    ExceptionIsDrafted(server, input, e, o);
    forall p | p in drafts && p.effectiveDate == Some(e.day) ensures p == o {
      SpokenDraft(server, input, e, p);
    }
    forall p | p in drafts ensures BP.Extension(p, window, e.day, now) == 0 {
    }
    WorthlessTogether(drafts, window, e.day, now);
    assert BP.Suspended(drafts, window, e.day, now) <==> BP.Live(o, window, e.day, now);
  }

  /** It frees the rest of a night it names, from the compile on, exactly when it does not expire before the end. */
  lemma NoBedtimeCoversExactly(
      idBefore: (OverrideId, OverrideId) -> bool, agent: Resolver, server: ServerZone, input: Input,
      e: ExceptionRow, w: WindowRow)
    requires Ordered(agent) && OnlyException(input, e) && e.effect.NoBedtime?
    requires InHorizon(server.dayOf(input.now), e.day) && WeekdayOf(e.day) in w.days
    requires e.windowId.None? || e.windowId.value == w.id
    requires agent.instant(e.day, w.from, RestrictedFrom) < UntilOf(agent, w, e.day)
    requires input.now < UntilOf(agent, w, e.day)
    ensures (forall now :: input.now <= now ==>
               !RunsRestricted(idBefore, agent, server, input, now, w, e.day))
            <==> UntilOf(agent, w, e.day) <= ExceptionExpiry(server, input.windows, e)
  {
    hide Compiled, ExceptionExpiry, UntilOf, OnlyException, BP.Restricts, Ordered;
    var from, expiry := agent.instant(e.day, w.from, RestrictedFrom), ExceptionExpiry(server, input.windows, e);
    forall now | input.now <= now
      ensures RunsRestricted(idBefore, agent, server, input, now, w, e.day)
              <==> from <= now < UntilOf(agent, w, e.day) && expiry <= now
    {
      AgentOnNoBedtime(idBefore, agent, server, input, e, w, now);
    }
    if expiry < UntilOf(agent, w, e.day) {
      var now := Max(input.now, Max(from, expiry));
      assert RunsRestricted(idBefore, agent, server, input, now, w, e.day);
    }
  }

  /**
    For the whole date it expires at that date's midnight: a window of that day restricts
    again from then on, at every instant of its span past it.
   */
  lemma WholeDayNoBedtimeEndsAtMidnight(
      idBefore: (OverrideId, OverrideId) -> bool, agent: Resolver, server: ServerZone, input: Input,
      e: ExceptionRow, w: WindowRow, now: Instant)
    requires Ordered(agent) && OnlyException(input, e) && e.effect.NoBedtime? && e.windowId.None?
    requires InHorizon(server.dayOf(input.now), e.day) && input.now <= now && WeekdayOf(e.day) in w.days
    requires agent.instant(e.day, w.from, RestrictedFrom) <= now < UntilOf(agent, w, e.day)
    ensures RunsRestricted(idBefore, agent, server, input, now, w, e.day)
            <==> EndOfDay(server, e.day) <= now
  {
    hide Compiled, OnlyException, UntilOf, BP.Restricts;
    AgentOnNoBedtime(idBefore, agent, server, input, e, w, now);
  }

  /** Named for one window it frees that window's whole night, when both clocks agree where that ends. */
  lemma WindowNoBedtimeCoversTheNight(
      idBefore: (OverrideId, OverrideId) -> bool, agent: Resolver, server: ServerZone, input: Input,
      e: ExceptionRow, w: WindowRow, now: Instant)
    requires Ordered(agent) && OnlyException(input, e) && e.effect.NoBedtime? && e.windowId == Some(w.id)
    requires DistinctIds(input.windows) && w in input.windows
    requires InHorizon(server.dayOf(input.now), e.day) && input.now <= now
    requires WindowEnd(server, w, e.day) == UntilOf(agent, w, e.day)
    ensures !RunsRestricted(idBefore, agent, server, input, now, w, e.day)
  {
    hide Compiled, OnlyException, UntilOf, WindowEnd;
    FoundById(input.windows, w);
    RowSpan(agent, w, e.day);
    if WeekdayOf(e.day) in w.days {
      AgentOnNoBedtime(idBefore, agent, server, input, e, w, now);
    }
  }

  /** A date already past at the compile has no draft but a grant. */
  lemma PastDateHasNoDraft(server: ServerZone, input: Input, day: Day, o: Override)
    requires day < server.dayOf(input.now) && forall g :: g in input.grants ==> g.effectiveDate != day
    requires o in Drafts(server, input)
    ensures o.effectiveDate != Some(day)
  {
    var from := DraftProvenance(server, input, o);
    DraftDate(server, input, o, from);
  }

  /** So a window of that date is run by the schedule alone, whatever the parent had said of the date. */
  lemma PastDateIsTheSchedule(
      idBefore: (OverrideId, OverrideId) -> bool, agent: Resolver, server: ServerZone, input: Input, w: WindowRow,
      day: Day, now: Instant)
    requires Ordered(agent) && input.now <= now && WeekdayOf(day) in w.days
    requires day < server.dayOf(input.now) && forall g :: g in input.grants ==> g.effectiveDate != day
    ensures RunsRestricted(idBefore, agent, server, input, now, w, day)
            <==> agent.instant(day, w.from, RestrictedFrom) <= now < UntilOf(agent, w, day)
  {
    hide Compiled, Drafts, UntilOf, BP.AfterOverrides, BP.ResolveSpan;
    var drafts, window := Drafts(server, input), ToWindow(w);
    RowSpan(agent, w, day);
    BP.OverridesClosedForm(
      Compiled(idBefore, server, input).overrides, BP.ResolveSpan(agent, window, day).value, window, day, now);
    CompiledAsDrafted(idBefore, server, input, window, day, now);
    forall o | o in drafts ensures o.effectiveDate != Some(day) {
      PastDateHasNoDraft(server, input, day, o);
    }
    WorthlessTogether(drafts, window, day, now);
  }

  /**
    A night freed by "no bedtime" for its window, and a compile after midnight: by the document
    of the evening it is free to its end, by the new one it is restricted again at once.
   */
  lemma RecompileForgetsTheNight(
      idBefore: (OverrideId, OverrideId) -> bool, agent: Resolver, server: ServerZone, input: Input,
      e: ExceptionRow, w: WindowRow, later: Instant, now: Instant)
    requires Ordered(agent) && OnlyException(input, e) && e.effect.NoBedtime? && e.windowId == Some(w.id)
    requires DistinctIds(input.windows) && w in input.windows && WeekdayOf(e.day) in w.days
    requires WindowEnd(server, w, e.day) == UntilOf(agent, w, e.day)
    requires server.dayOf(input.now) == e.day && input.now <= later && server.dayOf(later) == e.day + 1
    requires later <= now && agent.instant(e.day, w.from, RestrictedFrom) <= now < UntilOf(agent, w, e.day)
    ensures !RunsRestricted(idBefore, agent, server, input, now, w, e.day)
    ensures RunsRestricted(idBefore, agent, server, input.(now := later), now, w, e.day)
  {
    hide Compiled, UntilOf, WindowEnd, BP.Restricts;
    WindowNoBedtimeCoversTheNight(idBefore, agent, server, input, e, w, now);
    PastDateIsTheSchedule(idBefore, agent, server, input.(now := later), w, e.day, now);
  }

  lemma {:induction false} FoundById(windows: seq<WindowRow>, w: WindowRow)
    requires DistinctIds(windows) && w in windows
    ensures FindWindow(windows, w.id) == Some(w)
    decreases |windows|
  {
    if windows[0] != w {
      assert w in windows[1..];
      var i :| 0 <= i < |windows| && windows[i] == w;
      FoundById(windows[1..], w);
    }
  }
}
