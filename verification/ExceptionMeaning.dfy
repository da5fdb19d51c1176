/**
  What a parent's entry for a date means once it is compiled and an agent runs it: extra
  minutes, "like a weekend", and grants. "No bedtime" is with the holidays.
 */
module ExceptionMeaning {
  import opened Basics
  import opened PolicyDocument
  import opened Sorting
  import opened Restriction
  import opened Compile
  import opened HolidayMeaning
  import BP = BedtimePredicate

  /** The one entry of its date, once, ahead or today, with no grant for the date. */
  predicate SoleEntry(server: ServerZone, input: Input, e: ExceptionRow) {
    && OnlyException(input, e) && InHorizon(server.dayOf(input.now), e.day)
    && (forall i, j :: 0 <= i < j < |input.exceptions| ==> input.exceptions[i].id != input.exceptions[j].id)
  }

  lemma ElsewhereIsWorthless(server: ServerZone, input: Input, f: ExceptionRow, w: Window, day: Day, now: Instant)
    requires f.day != day
    ensures BP.TotalExtension(ExceptionShare(server, input)(f), w, day, now) == 0
  {
    forall o | o in ExceptionShare(server, input)(f) ensures BP.Extension(o, w, day, now) == 0 {
      ExceptionDraftDate(server, input.windows, f, o);
    }
    WorthlessTogether(ExceptionShare(server, input)(f), w, day, now);
  }

  /** Among entries for other dates, one entry's drafts are all that moves a window on its date. */
  lemma {:induction false} EntriesExtension(
      server: ServerZone, input: Input, entries: seq<ExceptionRow>, e: ExceptionRow, w: Window, now: Instant)
    requires forall i, j :: 0 <= i < j < |entries| ==> entries[i].id != entries[j].id
    requires forall f :: f in entries && f.day == e.day ==> f == e
    ensures BP.TotalExtension(FlatMap(ExceptionShare(server, input), entries), w, e.day, now)
            == if e in entries then BP.TotalExtension(ExceptionShare(server, input)(e), w, e.day, now) else 0
  {
    if entries != [] {
      hide ExceptionShare;
      var front, f := entries[..|entries| - 1], entries[|entries| - 1];
      EntriesExtension(server, input, front, e, w, now);
      ExtensionAppends(FlatMap(ExceptionShare(server, input), front), ExceptionShare(server, input)(f), w, e.day, now);
      assert entries == front + [f];
      if f != e {
        ElsewhereIsWorthless(server, input, f, w, e.day, now);
      } else {
        assert e !in front;
      }
    }
  }

  lemma HolidaysGiveWay(server: ServerZone, input: Input, e: ExceptionRow, o: Override)
    requires SoleEntry(server, input, e) && o in FlatMap((d: Day) => HolidayDrafts(server, input, d), input.holidays)
    ensures o.effectiveDate != Some(e.day)
  {
    var d := FlatMapSource((d: Day) => HolidayDrafts(server, input, d), input.holidays, o);
    var w := WeekendDraftSource(server, input.windows, d, ByHoliday(input.child), o);
    assert SpokenFor(server.dayOf(input.now), input.exceptions, e.day);
  }

  lemma GrantsAreElsewhere(server: ServerZone, input: Input, e: ExceptionRow, o: Override)
    requires SoleEntry(server, input, e) && o in MapRows(GrantOverride, input.grants)
    ensures o.effectiveDate != Some(e.day)
  {
    var g := MapSource(GrantOverride, input.grants, o);
  }

  /** On its date, the compiled document relaxes by that entry's drafts alone. */
  lemma EntryExtension(
      server: ServerZone, input: Input, e: ExceptionRow, w: Window, now: Instant)
    requires SoleEntry(server, input, e)
    ensures BP.TotalExtension(Drafts(server, input), w, e.day, now)
            == BP.TotalExtension(ExceptionDrafts(server, input.windows, e), w, e.day, now)
  {
    hide ExceptionDrafts, HolidayDrafts, BP.TotalExtension;
    var grants, entries := MapRows(GrantOverride, input.grants), ExceptionsInHorizon(server, input);
    var holidays := FlatMap((d: Day) => HolidayDrafts(server, input, d), input.holidays);
    assert Drafts(server, input) == grants + (entries + holidays);
    ExtensionAppends(grants, entries + holidays, w, e.day, now);
    ExtensionAppends(entries, holidays, w, e.day, now);
    forall o | o in grants ensures BP.Extension(o, w, e.day, now) == 0 {
      GrantsAreElsewhere(server, input, e, o);
    }
    WorthlessTogether(grants, w, e.day, now);
    forall o | o in holidays ensures BP.Extension(o, w, e.day, now) == 0 {
      HolidaysGiveWay(server, input, e, o);
    }
    WorthlessTogether(holidays, w, e.day, now);
    EntriesByShare(server, input);
    EntriesExtension(server, input, input.exceptions, e, w, now);
  }

  /** And suspends nothing, unless it is "no bedtime". */
  lemma EntrySuspends(server: ServerZone, input: Input, e: ExceptionRow, o: Override)
    requires SoleEntry(server, input, e) && !e.effect.NoBedtime?
    requires o in Drafts(server, input) && o.effectiveDate == Some(e.day)
    ensures o.kind.Extend?
  {
    SpokenDraft(server, input, e, o);
    if e.effect.TreatAsWeekend? {
      var target := if e.windowId.Some? then FindWindow(input.windows, e.windowId.value) else None;
      var w := WeekendDraftSource(
        server, if target.Some? then [target.value] else input.windows, e.day, ByException(e.id), o);
    }
  }

  /** How the agent runs a window on the date of such an entry. */
  lemma AgentOnEntry(
      idBefore: (OverrideId, OverrideId) -> bool, agent: Resolver, server: ServerZone, input: Input,
      e: ExceptionRow, w: WindowRow, now: Instant)
    requires Ordered(agent) && SoleEntry(server, input, e) && !e.effect.NoBedtime?
    requires input.now <= now && WeekdayOf(e.day) in w.days
    ensures RunsRestricted(idBefore, agent, server, input, now, w, e.day)
            <==> agent.instant(e.day, w.from, RestrictedFrom)
                 + BP.TotalExtension(ExceptionDrafts(server, input.windows, e), ToWindow(w), e.day, now)
                 <= now < UntilOf(agent, w, e.day)
  {
    hide Compiled, Drafts, UntilOf, ExceptionDrafts, SoleEntry, BP.AfterOverrides, BP.ResolveSpan, BP.TotalExtension;
    var drafts, window := Drafts(server, input), ToWindow(w);
    RowSpan(agent, w, e.day);
    BP.OverridesClosedForm(Compiled(idBefore, server, input).overrides,
                           BP.ResolveSpan(agent, window, e.day).value, window, e.day, now);
    CompiledAsDrafted(idBefore, server, input, window, e.day, now);
    EntryExtension(server, input, e, window, now);
    forall o | o in drafts && o.effectiveDate == Some(e.day) ensures o.kind.Extend? {
      EntrySuspends(server, input, e, o);
    }
    assert !BP.Suspended(drafts, window, e.day, now);
  }

  // ---- Extra minutes -----------------------------------------------------------------------------------

  predicate Names(e: ExceptionRow, w: WindowRow) {
    e.windowId.None? || e.windowId.value == w.id
  }

  /** What such an entry asks for: the windows it names start that much later. */
  function AskedStart(agent: Resolver, e: ExceptionRow, w: WindowRow): Instant {
    var own := agent.instant(e.day, w.from, RestrictedFrom);
    if Names(e, w) && e.extendMinutes.Some? && e.extendMinutes.value > 0 then own + e.extendMinutes.value * MINUTE
    else own
  }

  lemma CustomExtension(server: ServerZone, input: Input, e: ExceptionRow, w: WindowRow, now: Instant)
    requires e.effect.Custom?
    ensures BP.TotalExtension(ExceptionDrafts(server, input.windows, e), ToWindow(w), e.day, now)
            == if Names(e, w) && e.extendMinutes.Some? && e.extendMinutes.value > 0
                  && now < ExceptionExpiry(server, input.windows, e)
               then e.extendMinutes.value * MINUTE else 0
  {
    var drafts := ExceptionDrafts(server, input.windows, e);
    if drafts != [] {
      assert drafts[..0] == [];
      assert BP.TotalExtension(drafts, ToWindow(w), e.day, now)
        == BP.TotalExtension([], ToWindow(w), e.day, now) + BP.Extension(drafts[0], ToWindow(w), e.day, now);
    }
  }

  /** Until the entry expires a window it names starts later; from then on it is as if it had always been on. */
  lemma AgentOnCustom(
      idBefore: (OverrideId, OverrideId) -> bool, agent: Resolver, server: ServerZone, input: Input,
      e: ExceptionRow, w: WindowRow, now: Instant)
    requires Ordered(agent) && SoleEntry(server, input, e) && e.effect.Custom?
    requires input.now <= now && WeekdayOf(e.day) in w.days
    ensures RunsRestricted(idBefore, agent, server, input, now, w, e.day)
            <==> (if now < ExceptionExpiry(server, input.windows, e) then AskedStart(agent, e, w)
                  else agent.instant(e.day, w.from, RestrictedFrom)) <= now < UntilOf(agent, w, e.day)
  {
    hide Compiled, UntilOf, ExceptionExpiry, ExceptionDrafts, BP.Restricts, BP.TotalExtension;
    AgentOnEntry(idBefore, agent, server, input, e, w, now);
    CustomExtension(server, input, e, w, now);
  }

  /**
    The night is what was asked for, at every instant from the compile on, exactly when the
    later start, or the end of a shorter night, does not lie past the expiry. For a whole date
    that is midnight: extra minutes that run over it are taken back there.
   */
  lemma CustomNightExactly(
      idBefore: (OverrideId, OverrideId) -> bool, agent: Resolver, server: ServerZone, input: Input,
      e: ExceptionRow, w: WindowRow)
    requires Ordered(agent) && SoleEntry(server, input, e) && e.effect.Custom? && WeekdayOf(e.day) in w.days
    requires input.now <= agent.instant(e.day, w.from, RestrictedFrom) < UntilOf(agent, w, e.day)
    ensures (forall now :: input.now <= now ==>
               (RunsRestricted(idBefore, agent, server, input, now, w, e.day)
                <==> AskedStart(agent, e, w) <= now < UntilOf(agent, w, e.day)))
            <==> Min(AskedStart(agent, e, w), UntilOf(agent, w, e.day))
                 <= Max(ExceptionExpiry(server, input.windows, e), agent.instant(e.day, w.from, RestrictedFrom))
    ensures e.windowId.None? ==> ExceptionExpiry(server, input.windows, e) == EndOfDay(server, e.day)
  {
    var own, until := agent.instant(e.day, w.from, RestrictedFrom), UntilOf(agent, w, e.day);
    var start, expiry := AskedStart(agent, e, w), ExceptionExpiry(server, input.windows, e);
    assert e.windowId.None? ==> expiry == EndOfDay(server, e.day);
    hide Compiled, UntilOf, ExceptionExpiry, AskedStart, SoleEntry, BP.Restricts, Ordered;
    forall now | input.now <= now
      ensures RunsRestricted(idBefore, agent, server, input, now, w, e.day)
              <==> (if now < expiry then start else own) <= now < until
    {
      AgentOnCustom(idBefore, agent, server, input, e, w, now);
    }
    if Min(start, until) > Max(expiry, own) {
      var now := Max(expiry, own);
      assert RunsRestricted(idBefore, agent, server, input, now, w, e.day);
    }
    AskedIsLater(agent, e, w);
  }

  lemma AskedIsLater(agent: Resolver, e: ExceptionRow, w: WindowRow)
    ensures agent.instant(e.day, w.from, RestrictedFrom) <= AskedStart(agent, e, w)
  {
  }

  // ---- Like a weekend ----------------------------------------------------------------------------------------

  /** The same windows on a date that is a holiday and nothing else. */
  function AsHoliday(input: Input, day: Day): Input {
    input.(exceptions := [], grants := [], holidays := [day])
  }

  /** The entry names no window there is. */
  predicate ForTheDate(input: Input, e: ExceptionRow) {
    e.windowId.Some? ==> FindWindow(input.windows, e.windowId.value).None?
  }

  /** "Treat as weekend" for a whole date is exactly a holiday on that date. */
  lemma TreatAsWeekendIsAHoliday(
      idBefore: (OverrideId, OverrideId) -> bool, agent: Resolver, server: ServerZone, input: Input,
      e: ExceptionRow, w: WindowRow, now: Instant)
    requires Ordered(agent) && SoleEntry(server, input, e) && e.effect.TreatAsWeekend? && ForTheDate(input, e)
    requires DistinctIds(input.windows) && w in input.windows && WeekdayOf(e.day) in w.days && input.now <= now
    ensures RunsRestricted(idBefore, agent, server, input, now, w, e.day)
            <==> RunsRestricted(idBefore, agent, server, AsHoliday(input, e.day), now, w, e.day)
  {
    hide Compiled, UntilOf, HolidayWorth, SoleEntry, BP.AfterOverrides, BP.ResolveSpan, BP.TotalExtension, BP.Suspended;
    var holiday := AsHoliday(input, e.day);
    AgentOnEntry(idBefore, agent, server, input, e, w, now);
    WeekendEntryWorth(server, input, e, w, now);
    RowSpan(agent, w, e.day);
    var doc := Compiled(idBefore, server, holiday);
    BP.OverridesClosedForm(doc.overrides, BP.ResolveSpan(agent, ToWindow(w), e.day).value, ToWindow(w), e.day, now);
    CompiledRelaxation(idBefore, server, holiday, w, e.day, now);
    WorthIsNotNegative(server, holiday, w, e.day, now);
  }

  lemma WeekendEntryWorth(server: ServerZone, input: Input, e: ExceptionRow, w: WindowRow, now: Instant)
    requires SoleEntry(server, input, e) && e.effect.TreatAsWeekend? && ForTheDate(input, e)
    requires DistinctIds(input.windows) && w in input.windows
    ensures BP.TotalExtension(ExceptionDrafts(server, input.windows, e), ToWindow(w), e.day, now)
            == HolidayWorth(server, AsHoliday(input, e.day), e.day, w, e.day, now)
  {
    if WeekendWindow(input.windows).Some? {
      SameIdSameRow(input.windows, w);
      WindowDraftsExtension(server, input.windows, e.day, WeekendWindow(input.windows).value.from, ByException(e.id),
                            w, e.day, now);
    }
  }

  /** The weekend is looked for among the windows named, so for one window there is never a gap. */
  lemma NamedWeekendHasNoDraft(server: ServerZone, windows: seq<WindowRow>, e: ExceptionRow)
    requires e.effect.TreatAsWeekend? && e.windowId.Some? && FindWindow(windows, e.windowId.value).Some?
    ensures ExceptionDrafts(server, windows, e) == []
  {
    var w := FindWindow(windows, e.windowId.value).value;
    assert [w][..0] == [];
    if CoversWeekend(w) {
      assert WeekendWindow([w]) == Some(w);
      var draft := (v: WindowRow) => WeekendDraft(server, v, e.day, w.from, ByException(e.id));
      assert FlatMap(draft, [w]) == FlatMap(draft, []) + draft(w);
    } else {
      assert WeekendWindow([w]).None?;
    }
  }

  /** So for a window of its own it frees nothing, and takes the date's holiday away from every window. */
  lemma NamedTreatAsWeekendDoesNothing(
      idBefore: (OverrideId, OverrideId) -> bool, agent: Resolver, server: ServerZone, input: Input,
      e: ExceptionRow, w: WindowRow, now: Instant)
    requires Ordered(agent) && SoleEntry(server, input, e) && e.effect.TreatAsWeekend?
    requires e.windowId.Some? && FindWindow(input.windows, e.windowId.value).Some?
    requires input.now <= now && WeekdayOf(e.day) in w.days
    ensures RunsRestricted(idBefore, agent, server, input, now, w, e.day)
            <==> agent.instant(e.day, w.from, RestrictedFrom) <= now < UntilOf(agent, w, e.day)
  {
    hide Compiled, UntilOf, ExceptionDrafts, SoleEntry, BP.Restricts;
    AgentOnEntry(idBefore, agent, server, input, e, w, now);
    NamedWeekendHasNoDraft(server, input.windows, e);
  }

  /** Nothing synthesised is idle: it frees a night, or moves a start by at least a minute. */
  lemma SynthesisedRelax(server: ServerZone, input: Input, o: Override)
    requires o in Synthesised(server, input)
    ensures o.kind.Suspend? || (o.kind.Extend? && o.minutes.Some? && o.minutes.value > 0)
    ensures exists day :: o.effectiveDate == Some(day) && InHorizon(server.dayOf(input.now), day)
  {
    hide WeekendDrafts, ExceptionExpiry, HolidayDrafts;
    if o in ExceptionsInHorizon(server, input) {
      EntriesByShare(server, input);
      var e := FlatMapSource(ExceptionShare(server, input), input.exceptions, o);
      ExceptionDraftDate(server, input.windows, e, o);
      if e.effect.TreatAsWeekend? {
        var target := if e.windowId.Some? then FindWindow(input.windows, e.windowId.value) else None;
        var w := WeekendDraftSource(
          server, if target.Some? then [target.value] else input.windows, e.day, ByException(e.id), o);
      }
    } else {
      var d := FlatMapSource((d: Day) => HolidayDrafts(server, input, d), input.holidays, o);
      HolidayDraftSource(server, input, d, o);
      var w := WeekendDraftSource(server, input.windows, d, ByHoliday(input.child), o);
    }
  }

  lemma HolidayDraftSource(server: ServerZone, input: Input, d: Day, o: Override)
    requires o in HolidayDrafts(server, input, d)
    ensures InHorizon(server.dayOf(input.now), d)
    ensures o in WeekendDrafts(server, input.windows, d, ByHoliday(input.child))
  {
    hide WeekendDrafts;
  }

  // ---- Grants --------------------------------------------------------------------------------------------

  /** The grant is for this date, for this window or for all, and has not expired. */
  predicate Grants(g: GrantRow, w: WindowRow, day: Day, now: Instant) {
    g.effectiveDate == day && (g.windowId.None? || g.windowId.value == w.id) && now < g.expiresAt
  }

  /** The minutes all such grants add up to. */
  function GrantedMinutes(grants: seq<GrantRow>, w: WindowRow, day: Day, now: Instant): int {
    if grants == [] then 0
    else
      var g := grants[|grants| - 1];
      GrantedMinutes(grants[..|grants| - 1], w, day, now)
      + (if g.kind.Extend? && g.minutes.Some? && g.minutes.value > 0 && Grants(g, w, day, now)
         then g.minutes.value else 0)
  }

  lemma {:induction false} GrantsExtend(grants: seq<GrantRow>, w: WindowRow, day: Day, now: Instant)
    ensures BP.TotalExtension(MapRows(GrantOverride, grants), ToWindow(w), day, now)
            == GrantedMinutes(grants, w, day, now) * MINUTE
  {
    if grants != [] {
      var front, g := grants[..|grants| - 1], grants[|grants| - 1];
      GrantsExtend(front, w, day, now);
      ExtensionAppends(MapRows(GrantOverride, front), [GrantOverride(g)], ToWindow(w), day, now);
      OneExtension(GrantOverride(g), ToWindow(w), day, now);
      assert MapRows(GrantOverride, grants) == MapRows(GrantOverride, front) + [GrantOverride(g)];
    }
  }

  lemma OneExtension(o: Override, w: Window, day: Day, now: Instant)
    ensures BP.TotalExtension([o], w, day, now) == BP.Extension(o, w, day, now)
  {
    assert [o][..0] == [];
  }

  /** Nothing but grants is for the date. */
  predicate OnlyGrants(input: Input, day: Day) {
    day !in input.holidays && forall e :: e in input.exceptions ==> e.day != day
  }

  lemma GrantedDraft(server: ServerZone, input: Input, day: Day, o: Override)
    requires OnlyGrants(input, day) && o in Synthesised(server, input)
    ensures o.effectiveDate != Some(day)
  {
    assert o in Drafts(server, input);
    if o in ExceptionsInHorizon(server, input) {
      EntriesByShare(server, input);
      var e := FlatMapSource(ExceptionShare(server, input), input.exceptions, o);
      DraftDate(server, input, o, OfException(e));
    } else {
      var d := FlatMapSource((d: Day) => HolidayDrafts(server, input, d), input.holidays, o);
      DraftDate(server, input, o, OfHoliday(d));
    }
  }

  lemma GrantSuspends(grants: seq<GrantRow>, w: WindowRow, day: Day, now: Instant)
    ensures BP.Suspended(MapRows(GrantOverride, grants), ToWindow(w), day, now)
            <==> exists g :: g in grants && g.kind.Suspend? && Grants(g, w, day, now)
  {
    var overrides := MapRows(GrantOverride, grants);
    if BP.Suspended(overrides, ToWindow(w), day, now) {
      var o :| o in overrides && o.kind.Suspend? && BP.Live(o, ToWindow(w), day, now);
      var g := MapSource(GrantOverride, grants, o);
    }
    if g :| g in grants && g.kind.Suspend? && Grants(g, w, day, now) {
      MapPlaces(GrantOverride, grants);
      var i :| 0 <= i < |grants| && grants[i] == g;
      assert overrides[i] in overrides && BP.Live(overrides[i], ToWindow(w), day, now);
    }
  }

  /**
    How the agent runs a window on a date that only grants are for: while none alive frees it, it
    restricts from its own start moved by the minutes of all those alive, to its end.
   */
  lemma AgentOnGrants(
      idBefore: (OverrideId, OverrideId) -> bool, agent: Resolver, server: ServerZone, input: Input,
      w: WindowRow, day: Day, now: Instant)
    requires Ordered(agent) && OnlyGrants(input, day)
    requires input.now <= now && WeekdayOf(day) in w.days
    ensures RunsRestricted(idBefore, agent, server, input, now, w, day)
            <==> && agent.instant(day, w.from, RestrictedFrom) + GrantedMinutes(input.grants, w, day, now) * MINUTE
                    <= now < UntilOf(agent, w, day)
                 && !exists g :: g in input.grants && g.kind.Suspend? && Grants(g, w, day, now)
  {
    hide Compiled, Synthesised, UntilOf, BP.AfterOverrides, BP.ResolveSpan, BP.TotalExtension, GrantedMinutes, Grants;
    var drafts, window := Drafts(server, input), ToWindow(w);
    var grants, others := MapRows(GrantOverride, input.grants), Synthesised(server, input);
    RowSpan(agent, w, day);
    BP.OverridesClosedForm(Compiled(idBefore, server, input).overrides,
                           BP.ResolveSpan(agent, window, day).value, window, day, now);
    CompiledAsDrafted(idBefore, server, input, window, day, now);
    ExtensionAppends(grants, others, window, day, now);
    GrantsExtend(input.grants, w, day, now);
    GrantSuspends(input.grants, w, day, now);
    forall o | o in others ensures o.effectiveDate != Some(day) {
      GrantedDraft(server, input, day, o);
    }
    WorthlessTogether(others, window, day, now);
    assert drafts == grants + others;
    assert BP.Suspended(drafts, window, day, now) <==> BP.Suspended(grants, window, day, now);
  }

  // ---- The windows ------------------------------------------------------------------------------------------

  /** A row as the document has it: the same but for the order of its warnings, the longest lead first. */
  predicate IsCompiled(row: WindowRow, w: Window) {
    && w.id == row.id && w.days == row.days && w.from == Some(row.from) && w.until == Some(row.until)
    && w.action == row.action && w.shutdownGraceS == row.shutdownGraceS
    && multiset(w.warnings) == multiset(row.warnings)
    && forall i, j :: 0 <= i < j < |w.warnings| ==> w.warnings[i].leadMinutes >= w.warnings[j].leadMinutes
  }

  lemma CompiledWindow(row: WindowRow)
    ensures IsCompiled(row, ToWindow(row))
  {
    var longer := (a: Warning, b: Warning) => b.leadMinutes < a.leadMinutes;
    SortKeepsRows(longer, row.warnings);
    SortSorts(longer, row.warnings);
  }

  /** The document's windows are the rows, each once, by their sort order and then their ids. */
  lemma CompiledWindowsExactly(
      idBefore: (OverrideId, OverrideId) -> bool, server: ServerZone, input: Input)
    ensures var windows := Compiled(idBefore, server, input).windows;
            exists rows: seq<WindowRow> :: multiset(rows) == multiset(input.windows) && |rows| == |windows|
              && (forall i :: 0 <= i < |rows| ==> IsCompiled(rows[i], windows[i]))
              && (forall i, j :: 0 <= i < j < |rows| ==>
                    rows[i].sortOrder < rows[j].sortOrder
                    || (rows[i].sortOrder == rows[j].sortOrder && rows[i].id <= rows[j].id))
  {
    hide IsCompiled, ToWindow;
    var rows := Sort(RowBefore, input.windows);
    SortKeepsRows(RowBefore, input.windows);
    SortSorts(RowBefore, input.windows);
    MapPlaces(ToWindow, rows);
    forall i | 0 <= i < |rows| ensures IsCompiled(rows[i], ToWindow(rows[i])) {
      CompiledWindow(rows[i]);
    }
  }
}
