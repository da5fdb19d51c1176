/**
  The policy compiler: a parent's windows, calendar exceptions, grants and holidays in,
  one policy document out. A holiday becomes an `extend` override whose meaning only the
  agent's predicate fixes.
 */
module Compile {
  import opened Basics
  import opened PolicyDocument
  import opened Sorting
  import opened Restriction
  import BP = BedtimePredicate

  const HORIZON_DAYS := 21
  const SATURDAY: Weekday := 5
  const SUNDAY: Weekday := 6

  datatype WindowRow = WindowRow(
    id: Id,
    days: set<Weekday>,
    from: Minute,
    until: Minute,
    action: Action,
    shutdownGraceS: int,
    sortOrder: int,
    warnings: seq<Warning>)
  {
    /** The generated column: an end not after the start belongs to the next day. */
    predicate CrossesMidnight() {
      until <= from
    }
  }

  datatype Effect = NoBedtime | TreatAsWeekend | Custom | DismissHoliday | OtherEffect

  datatype ExceptionRow = ExceptionRow(
    id: Id,
    day: Day,
    effect: Effect,
    extendMinutes: Option<int>,
    windowId: Option<Id>)

  datatype GrantRow = GrantRow(
    id: Id,
    kind: OverrideKind,
    windowId: Option<Id>,
    minutes: Option<int>,
    effectiveDate: Day,
    expiresAt: Instant)

  datatype Input = Input(
    now: Instant,
    child: Id,
    windows: seq<WindowRow>,
    exceptions: seq<ExceptionRow>,
    grants: seq<GrantRow>,
    holidays: seq<Day>)

  // ---- Row-by-row helpers ---------------------------------------------------------------------

  function FlatMap<A, B>(f: A -> seq<B>, rows: seq<A>): seq<B> {
    if rows == [] then [] else FlatMap(f, rows[..|rows| - 1]) + f(rows[|rows| - 1])
  }

  function Keep<A>(p: A -> bool, rows: seq<A>): seq<A> {
    FlatMap((a: A) => if p(a) then [a] else [], rows)
  }

  function MapRows<A, B>(f: A -> B, rows: seq<A>): seq<B> {
    FlatMap((a: A) => [f(a)], rows)
  }

  // ---- The weekend ----------------------------------------------------------------------------

  predicate CoversWeekend(w: WindowRow) {
    SATURDAY in w.days || SUNDAY in w.days
  }

  /** The weekend window with the latest start; the first of them when several tie. */
  function WeekendWindow(windows: seq<WindowRow>): (r: Option<WindowRow>)
    ensures r.None? <==> forall w :: w in windows ==> !CoversWeekend(w)
    ensures r.Some? ==>
              && r.value in windows && CoversWeekend(r.value)
              && forall w :: w in windows && CoversWeekend(w) ==> w.from <= r.value.from
  {
    if windows == [] then None
    else
      var best, w := WeekendWindow(windows[..|windows| - 1]), windows[|windows| - 1];
      assert windows == windows[..|windows| - 1] + [w];
      if CoversWeekend(w) && (best.None? || w.from > best.value.from) then Some(w) else best
  }

  predicate OnSaturdayOrSunday(w: WindowRow) {
    5 in w.days || 6 in w.days
  }

  /** Of the windows on a Saturday or a Sunday none starts later, and none before it as late. */
  predicate FirstLatestStart(windows: seq<WindowRow>, i: nat)
    requires i < |windows|
  {
    && OnSaturdayOrSunday(windows[i])
    && forall j :: 0 <= j < |windows| && OnSaturdayOrSunday(windows[j]) ==>
         windows[j].from < windows[i].from || (windows[j].from == windows[i].from && i <= j)
  }

  /** It is one of the windows, and the first to start latest. */
  predicate IsWeekendOf(windows: seq<WindowRow>, weekend: WindowRow) {
    exists i :: 0 <= i < |windows| && weekend == windows[i] && FirstLatestStart(windows, i)
  }

  predicate NoneAtWeekends(windows: seq<WindowRow>) {
    forall i :: 0 <= i < |windows| ==> !OnSaturdayOrSunday(windows[i])
  }

  /** Saturday or Sunday is enough, and of several windows that start latest the first in order counts. */
  lemma {:induction false} WeekendWindowExactly(windows: seq<WindowRow>)
    ensures var weekend := WeekendWindow(windows);
            if weekend.None? then NoneAtWeekends(windows) else IsWeekendOf(windows, weekend.value)
  {
    if windows != [] {
      var front, last := windows[..|windows| - 1], windows[|windows| - 1];
      WeekendWindowExactly(front);
      assert windows == front + [last];
      assert CoversWeekend(last) <==> OnSaturdayOrSunday(last);
      hide OnSaturdayOrSunday, NoneAtWeekends, IsWeekendOf;
      if WeekendWindow(front).Some? {
        LaterWeekend(front, last, WeekendWindow(front).value);
      } else {
        FirstWeekend(front, last);
      }
    }
  }

  lemma LaterWeekend(front: seq<WindowRow>, last: WindowRow, weekend: WindowRow)
    requires IsWeekendOf(front, weekend)
    ensures IsWeekendOf(front + [last], if OnSaturdayOrSunday(last) && last.from > weekend.from then last else weekend)
  {
    hide FirstLatestStart, OnSaturdayOrSunday;
    var i :| 0 <= i < |front| && weekend == front[i] && FirstLatestStart(front, i);
    FirstLatestNext(front, last, i);
    assert (front + [last])[i] == front[i] && (front + [last])[|front|] == last;
  }

  lemma FirstWeekend(front: seq<WindowRow>, last: WindowRow)
    requires NoneAtWeekends(front)
    ensures if OnSaturdayOrSunday(last) then IsWeekendOf(front + [last], last) else NoneAtWeekends(front + [last])
  {
    hide OnSaturdayOrSunday;
    if OnSaturdayOrSunday(last) {
      assert (front + [last])[|front|] == last && FirstLatestStart(front + [last], |front|);
    }
  }

  lemma FirstLatestNext(front: seq<WindowRow>, last: WindowRow, i: nat)
    requires i < |front| && FirstLatestStart(front, i)
    ensures FirstLatestStart(
              front + [last], if OnSaturdayOrSunday(last) && last.from > front[i].from then |front| else i)
  {
    hide OnSaturdayOrSunday;
  }

  function WindowEnd(zone: ServerZone, w: WindowRow, date: Day): Instant {
    zone.instant(if w.CrossesMidnight() then date + 1 else date, w.until)
  }

  function EndOfDay(zone: ServerZone, date: Day): Instant {
    zone.instant(date + 1, 0)
  }

  /** How long the window restricts for, in minutes, wrap included. */
  function WindowDuration(w: WindowRow): int {
    if w.CrossesMidnight() then 1440 - w.from + w.until else w.until - w.from
  }

  /** What a synthesised override is named after. */
  datatype Origin = ByException(exception: Id) | ByHoliday(child: Id)

  function OriginId(origin: Origin, window: Id, date: Day): OverrideId {
    match origin
    case ByException(e) => FromException(e, Some(window), date)
    case ByHoliday(c) => FromHoliday(c, date, window)
  }

  /** One window's share of treating a date as a weekend: nothing, or an extension to its start. */
  function WeekendDraft(zone: ServerZone, w: WindowRow, date: Day, weekendStart: Minute, origin: Origin)
    : seq<Override>
  {
    var delta := weekendStart - w.from;
    if WeekdayOf(date) !in w.days || delta <= 0 then []
    else
      [Override(OriginId(origin, w.id, date), Extend, Some(w.id), Some(Min(delta, WindowDuration(w))),
                Some(date), WindowEnd(zone, w, date))]
  }

  function WeekendDrafts(zone: ServerZone, windows: seq<WindowRow>, date: Day, origin: Origin): seq<Override> {
    var weekend := WeekendWindow(windows);
    if weekend.None? then []
    else FlatMap((w: WindowRow) => WeekendDraft(zone, w, date, weekend.value.from, origin), windows)
  }

  method TreatDateAsWeekend(zone: ServerZone, windows: seq<WindowRow>, date: Day, origin: Origin)
    returns (out: seq<Override>)
    ensures out == WeekendDrafts(zone, windows, date, origin)
  {
    out := [];
    var weekend := WeekendWindow(windows);
    if weekend.None? {
      return;
    }
    var weekendStart := weekend.value.from;
    var draft := (w: WindowRow) => WeekendDraft(zone, w, date, weekendStart, origin);
    for i := 0 to |windows|
      invariant out == FlatMap(draft, windows[..i])
    {
      var w := windows[i];
      FlatMapNext(draft, windows, i);
      if WeekdayOf(date) !in w.days { continue; }
      var delta := weekendStart - w.from;
      if delta <= 0 { continue; }
      // Never longer than the window itself.
      var minutes := Min(delta, WindowDuration(w));
      out := out + [Override(OriginId(origin, w.id, date), Extend, Some(w.id), Some(minutes), Some(date),
                             WindowEnd(zone, w, date))];
    }
    assert windows[..|windows|] == windows;
  }

  function FindWindow(windows: seq<WindowRow>, id: Id): Option<WindowRow> {
    if windows == [] then None
    else if windows[0].id == id then Some(windows[0])
    else FindWindow(windows[1..], id)
  }

  /** A window's relaxation ends with the window; one for every window ends with the day. */
  function ExceptionExpiry(zone: ServerZone, windows: seq<WindowRow>, e: ExceptionRow): Instant {
    var target := if e.windowId.Some? then FindWindow(windows, e.windowId.value) else None;
    if target.Some? then WindowEnd(zone, target.value, e.day) else EndOfDay(zone, e.day)
  }

  function ExceptionDrafts(zone: ServerZone, windows: seq<WindowRow>, e: ExceptionRow): seq<Override> {
    var id := FromException(e.id, e.windowId, e.day);
    match e.effect
    case NoBedtime =>
      [Override(id, Suspend, e.windowId, None, Some(e.day), ExceptionExpiry(zone, windows, e))]
    case Custom =>
      if e.extendMinutes.None? || e.extendMinutes.value <= 0 then []
      else [Override(id, Extend, e.windowId, e.extendMinutes, Some(e.day), ExceptionExpiry(zone, windows, e))]
    case TreatAsWeekend =>
      var target := if e.windowId.Some? then FindWindow(windows, e.windowId.value) else None;
      WeekendDrafts(zone, if target.Some? then [target.value] else windows, e.day, ByException(e.id))
    case DismissHoliday => []
    case OtherEffect => []
  }

  predicate InHorizon(today: Day, date: Day) {
    today <= date <= today + HORIZON_DAYS
  }

  /** The parent has spoken about this date, either way. */
  predicate SpokenFor(today: Day, exceptions: seq<ExceptionRow>, date: Day) {
    exists e :: e in exceptions && InHorizon(today, e.day) && e.day == date
  }

  function HolidayDrafts(zone: ServerZone, input: Input, date: Day): seq<Override> {
    var today := zone.dayOf(input.now);
    if !InHorizon(today, date) || SpokenFor(today, input.exceptions, date) then []
    else WeekendDrafts(zone, input.windows, date, ByHoliday(input.child))
  }

  function ExceptionsInHorizon(zone: ServerZone, input: Input): seq<Override> {
    FlatMap((e: ExceptionRow) =>
              if InHorizon(zone.dayOf(input.now), e.day) then ExceptionDrafts(zone, input.windows, e) else [],
            input.exceptions)
  }

  function Synthesised(zone: ServerZone, input: Input): seq<Override> {
    ExceptionsInHorizon(zone, input) + FlatMap((d: Day) => HolidayDrafts(zone, input, d), input.holidays)
  }

  function GrantOverride(g: GrantRow): Override {
    Override(Granted(g.id), g.kind, g.windowId, g.minutes, Some(g.effectiveDate), g.expiresAt)
  }

  // ---- The document -----------------------------------------------------------------------------

  function LongestLeadFirst(warnings: seq<Warning>): seq<Warning> {
    Sort((a: Warning, b: Warning) => b.leadMinutes < a.leadMinutes, warnings)
  }

  function ToWindow(w: WindowRow): Window {
    Window(w.id, w.days, Some(w.from), Some(w.until), w.action, w.shutdownGraceS, LongestLeadFirst(w.warnings))
  }

  predicate RowBefore(a: WindowRow, b: WindowRow) {
    a.sortOrder < b.sortOrder || (a.sortOrder == b.sortOrder && a.id < b.id)
  }

  /** By effective date, then by the id's text, whatever order that is. */
  predicate OverrideBefore(idBefore: (OverrideId, OverrideId) -> bool, a: Override, b: Override) {
    match (a.effectiveDate, b.effectiveDate)
    case (Some(p), Some(q)) => p < q || (p == q && idBefore(a.id, b.id))
    case (None, None) => idBefore(a.id, b.id)
    case (None, Some(_)) => true
    case (Some(_), None) => false
  }

  function Drafts(zone: ServerZone, input: Input): seq<Override> {
    MapRows(GrantOverride, input.grants) + Synthesised(zone, input)
  }

  function LiveDrafts(zone: ServerZone, input: Input): seq<Override> {
    Keep((o: Override) => o.expiresAt > input.now, Drafts(zone, input))
  }

  /** The compiled schedule and overrides: everything of the document these rows decide. */
  function Compiled(idBefore: (OverrideId, OverrideId) -> bool, zone: ServerZone, input: Input): Document {
    Document(
      MapRows(ToWindow, Sort(RowBefore, input.windows)),
      Sort((a: Override, b: Override) => OverrideBefore(idBefore, a, b), LiveDrafts(zone, input)))
  }

  /** Parent intent first. */
  method SynthesiseExceptions(zone: ServerZone, input: Input) returns (out: seq<Override>)
    ensures out == ExceptionsInHorizon(zone, input)
  {
    var today := zone.dayOf(input.now);
    var drafts := (e: ExceptionRow) =>
        if InHorizon(zone.dayOf(input.now), e.day) then ExceptionDrafts(zone, input.windows, e) else [];
    out := [];
    for i := 0 to |input.exceptions|
      invariant out == FlatMap(drafts, input.exceptions[..i])
    {
      var e := input.exceptions[i];
      FlatMapNext(drafts, input.exceptions, i);
      if !InHorizon(today, e.day) || e.effect.DismissHoliday? { continue; }
      out := out + ExceptionDrafts(zone, input.windows, e);
    }
    assert input.exceptions[..|input.exceptions|] == input.exceptions;
  }

  /** Then the library, for dates the parent has not spoken about. */
  method Synthesise(zone: ServerZone, input: Input) returns (out: seq<Override>)
    ensures out == Synthesised(zone, input)
  {
    var today := zone.dayOf(input.now);
    var fromParent := SynthesiseExceptions(zone, input);
    var library := (d: Day) => HolidayDrafts(zone, input, d);
    var fromLibrary: seq<Override> := [];
    for i := 0 to |input.holidays|
      invariant fromLibrary == FlatMap(library, input.holidays[..i])
    {
      var date := input.holidays[i];
      FlatMapNext(library, input.holidays, i);
      if !InHorizon(today, date) { continue; }
      if SpokenFor(today, input.exceptions, date) { continue; }
      var drafts := TreatDateAsWeekend(zone, input.windows, date, ByHoliday(input.child));
      fromLibrary := fromLibrary + drafts;
    }
    assert input.holidays[..|input.holidays|] == input.holidays;
    out := fromParent + fromLibrary;
  }

  lemma FlatMapNext<A, B>(f: A -> seq<B>, rows: seq<A>, i: nat)
    requires i < |rows|
    ensures FlatMap(f, rows[..i + 1]) == FlatMap(f, rows[..i]) + f(rows[i])
  {
    assert rows[..i + 1][..i] == rows[..i];
  }

  lemma {:induction false} FlatMapEqual<A, B>(f: A -> seq<B>, g: A -> seq<B>, rows: seq<A>)
    requires forall a :: a in rows ==> f(a) == g(a)
    ensures FlatMap(f, rows) == FlatMap(g, rows)
  {
    if rows != [] {
      var front, last := rows[..|rows| - 1], rows[|rows| - 1];
      assert rows == front + [last];
      FlatMapEqual(f, g, front);
    }
  }

  /** What one entry adds. */
  function ExceptionShare(zone: ServerZone, input: Input): ExceptionRow -> seq<Override> {
    (e: ExceptionRow) => if InHorizon(zone.dayOf(input.now), e.day) then ExceptionDrafts(zone, input.windows, e) else []
  }

  lemma EntriesByShare(zone: ServerZone, input: Input)
    ensures ExceptionsInHorizon(zone, input) == FlatMap(ExceptionShare(zone, input), input.exceptions)
  {
    FlatMapEqual(
      (e: ExceptionRow) =>
        if InHorizon(zone.dayOf(input.now), e.day) then ExceptionDrafts(zone, input.windows, e) else [],
      ExceptionShare(zone, input), input.exceptions);
  }

  // ---- Where a draft comes from -------------------------------------------------------------------------

  lemma {:induction false} FlatMapSource<A, B>(f: A -> seq<B>, rows: seq<A>, b: B) returns (a: A)
    requires b in FlatMap(f, rows)
    ensures a in rows && b in f(a)
  {
    var front, last := rows[..|rows| - 1], rows[|rows| - 1];
    assert rows == front + [last];
    if b in f(last) {
      a := last;
    } else {
      a := FlatMapSource(f, front, b);
    }
  }

  lemma {:induction false} FlatMapHas<A, B>(f: A -> seq<B>, rows: seq<A>, a: A, b: B)
    requires a in rows && b in f(a)
    ensures b in FlatMap(f, rows)
  {
    var front, last := rows[..|rows| - 1], rows[|rows| - 1];
    assert rows == front + [last];
    if a in front {
      FlatMapHas(f, front, a, b);
    }
  }

  lemma MapSource<A, B>(f: A -> B, rows: seq<A>, b: B) returns (a: A)
    requires b in MapRows(f, rows)
    ensures a in rows && b == f(a)
  {
    a := FlatMapSource((a: A) => [f(a)], rows, b);
  }

  lemma {:induction false} MapPlaces<A, B>(f: A -> B, rows: seq<A>)
    ensures |MapRows(f, rows)| == |rows|
    ensures forall i :: 0 <= i < |rows| ==> MapRows(f, rows)[i] == f(rows[i])
  {
    if rows != [] {
      MapPlaces(f, rows[..|rows| - 1]);
    }
  }

  lemma KeepMembers<A>(p: A -> bool, rows: seq<A>, a: A)
    ensures a in Keep(p, rows) <==> a in rows && p(a)
  {
    var f := (a: A) => if p(a) then [a] else [];
    if a in Keep(p, rows) {
      var source := FlatMapSource(f, rows, a);
    }
    if a in rows && p(a) {
      FlatMapHas(f, rows, a, a);
    }
  }

  /** The compiled overrides are the drafts still alive at the compile. */
  lemma CompiledOverride(idBefore: (OverrideId, OverrideId) -> bool, server: ServerZone, input: Input, o: Override)
    ensures o in Compiled(idBefore, server, input).overrides <==> o in Drafts(server, input) && o.expiresAt > input.now
  {
    var live := LiveDrafts(server, input);
    var before := (a: Override, b: Override) => OverrideBefore(idBefore, a, b);
    SortKeepsRows(before, live);
    assert o in multiset(Sort(before, live)) <==> o in multiset(live);
    KeepMembers((o: Override) => o.expiresAt > input.now, Drafts(server, input), o);
  }

  datatype Provenance = OfGrant(g: GrantRow) | OfException(e: ExceptionRow) | OfHoliday(d: Day)

  predicate CameFrom(zone: ServerZone, input: Input, o: Override, from: Provenance) {
    match from
    case OfGrant(g) => g in input.grants && o == GrantOverride(g)
    case OfException(e) =>
      e in input.exceptions && InHorizon(zone.dayOf(input.now), e.day) && o in ExceptionDrafts(zone, input.windows, e)
    case OfHoliday(d) => d in input.holidays && o in HolidayDrafts(zone, input, d)
  }

  lemma DraftProvenance(zone: ServerZone, input: Input, o: Override) returns (from: Provenance)
    requires o in Drafts(zone, input)
    ensures CameFrom(zone, input, o, from)
  {
    if o in MapRows(GrantOverride, input.grants) {
      var g := MapSource(GrantOverride, input.grants, o);
      from := OfGrant(g);
    } else if o in ExceptionsInHorizon(zone, input) {
      var e := FlatMapSource(
        (e: ExceptionRow) =>
          if InHorizon(zone.dayOf(input.now), e.day) then ExceptionDrafts(zone, input.windows, e) else [],
        input.exceptions, o);
      from := OfException(e);
    } else {
      var d := FlatMapSource((d: Day) => HolidayDrafts(zone, input, d), input.holidays, o);
      from := OfHoliday(d);
    }
  }

  lemma WeekendDraftSource(zone: ServerZone, windows: seq<WindowRow>, date: Day, origin: Origin, o: Override)
    returns (w: WindowRow)
    requires o in WeekendDrafts(zone, windows, date, origin)
    ensures w in windows && WeekendWindow(windows).Some?
    ensures o in WeekendDraft(zone, w, date, WeekendWindow(windows).value.from, origin)
  {
    var start := WeekendWindow(windows).value.from;
    w := FlatMapSource((w: WindowRow) => WeekendDraft(zone, w, date, start, origin), windows, o);
  }

  /** A draft is for the date of the row it came from. */
  lemma DraftDate(zone: ServerZone, input: Input, o: Override, from: Provenance)
    requires CameFrom(zone, input, o, from)
    ensures o.effectiveDate == Some(match from
                                    case OfGrant(g) => g.effectiveDate
                                    case OfException(e) => e.day
                                    case OfHoliday(d) => d)
  {
    match from {
      case OfGrant(_) =>
      case OfException(e) => ExceptionDraftDate(zone, input.windows, e, o);
      case OfHoliday(d) => var w := WeekendDraftSource(zone, input.windows, d, ByHoliday(input.child), o);
    }
  }

  lemma ExceptionDraftDate(zone: ServerZone, windows: seq<WindowRow>, e: ExceptionRow, o: Override)
    requires o in ExceptionDrafts(zone, windows, e)
    ensures o.effectiveDate == Some(e.day)
  {
    if e.effect.TreatAsWeekend? {
      var target := if e.windowId.Some? then FindWindow(windows, e.windowId.value) else None;
      var w := WeekendDraftSource(
        zone, if target.Some? then [target.value] else windows, e.day, ByException(e.id), o);
    }
  }
}
