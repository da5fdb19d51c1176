/**
  Compiling the same rows again later: the clock moves, drafts expire, and at a new local
  date the horizon moves with it. Exactly when that changes nothing.
 */
module Recompile {
  import opened Basics
  import opened PolicyDocument
  import opened Restriction
  import opened Compile
  import opened RowOrder
  import Meaning = HolidayMeaning
  import BP = BedtimePredicate

  // ---- Keeping and mapping --------------------------------------------------------------------------

  lemma MapRowsAre<A, B>(f: A -> B, g: A -> seq<B>, rows: seq<A>)
    requires forall a :: a in rows ==> g(a) == [f(a)]
    ensures MapRows(f, rows) == FlatMap(g, rows)
  {
    FlatMapEqual((a: A) => [f(a)], g, rows);
  }

  lemma {:induction false} FlatMapJoin<A, B>(f: A -> seq<B>, a: seq<A>, b: seq<A>)
    ensures FlatMap(f, a + b) == FlatMap(f, a) + FlatMap(f, b)
  {
    if b == [] {
      assert a + b == a;
    } else {
      assert (a + b)[..|a + b| - 1] == a + b[..|b| - 1];
      FlatMapJoin(f, a, b[..|b| - 1]);
    }
  }

  lemma KeepJoin<A>(p: A -> bool, a: seq<A>, b: seq<A>)
    ensures Keep(p, a + b) == Keep(p, a) + Keep(p, b)
  {
    FlatMapJoin((a: A) => if p(a) then [a] else [], a, b);
  }

  lemma KeepAlike<A>(p: A -> bool, q: A -> bool, rows: seq<A>)
    requires forall a :: a in rows ==> p(a) == q(a)
    ensures Keep(p, rows) == Keep(q, rows)
  {
    FlatMapEqual((a: A) => if p(a) then [a] else [], (a: A) => if q(a) then [a] else [], rows);
  }

  lemma {:induction false} KeepNone<A>(p: A -> bool, rows: seq<A>)
    requires forall a :: a in rows ==> !p(a)
    ensures Keep(p, rows) == []
  {
    if rows != [] {
      var front, last := rows[..|rows| - 1], rows[|rows| - 1];
      assert rows == front + [last];
      KeepNone(p, front);
    }
  }

  /** Row by row the same survivors, so the same survivors in all. */
  lemma {:induction false} KeptAlike<A, B>(p: B -> bool, q: B -> bool, f: A -> seq<B>, g: A -> seq<B>, rows: seq<A>)
    requires forall a :: a in rows ==> Keep(p, f(a)) == Keep(q, g(a))
    ensures Keep(p, FlatMap(f, rows)) == Keep(q, FlatMap(g, rows))
  {
    if rows != [] {
      var front, last := rows[..|rows| - 1], rows[|rows| - 1];
      assert rows == front + [last];
      KeptAlike(p, q, f, g, front);
      KeepJoin(p, FlatMap(f, front), f(last));
      KeepJoin(q, FlatMap(g, front), g(last));
    }
  }

  /** Rows that would give nothing may be left out beforehand. */
  lemma {:induction false} KeptBeforehand<A, B>(p: B -> bool, keep: A -> bool, f: A -> seq<B>, rows: seq<A>)
    requires forall a :: a in rows && !keep(a) ==> Keep(p, f(a)) == []
    ensures Keep(p, FlatMap(f, Keep(keep, rows))) == Keep(p, FlatMap(f, rows))
  {
    if rows != [] {
      var front, last := rows[..|rows| - 1], rows[|rows| - 1];
      assert rows == front + [last];
      KeptBeforehand(p, keep, f, front);
      KeepJoin(p, FlatMap(f, front), f(last));
      assert Keep(keep, rows) == Keep(keep, front) + (if keep(last) then [last] else []);
      if keep(last) {
        FlatMapJoin(f, Keep(keep, front), [last]);
        assert [last][..0] == [];
        assert FlatMap(f, [last]) == f(last);
        KeepJoin(p, FlatMap(f, Keep(keep, front)), f(last));
      } else {
        assert Keep(keep, front) + [] == Keep(keep, front);
      }
    }
  }

  // ---- What is gathered ---------------------------------------------------------------------------------

  function AliveAt(at: Instant): GrantRow -> bool {
    (g: GrantRow) => g.expiresAt > at
  }

  /** The rows a compile is given: exceptions and holidays of the horizon, grants still alive. */
  function GatheredRows(zone: ServerZone, all: Input): Input {
    var today := zone.dayOf(all.now);
    all.(exceptions := Keep((e: ExceptionRow) => InHorizon(today, e.day), all.exceptions),
         grants := Keep(AliveAt(all.now), all.grants),
         holidays := Keep((d: Day) => InHorizon(today, d), all.holidays))
  }

  lemma SameSpoken(zone: ServerZone, all: Input, date: Day)
    ensures SpokenFor(zone.dayOf(all.now), GatheredRows(zone, all).exceptions, date)
            == SpokenFor(zone.dayOf(all.now), all.exceptions, date)
  {
    var today := zone.dayOf(all.now);
    forall e: ExceptionRow
      ensures e in GatheredRows(zone, all).exceptions <==> e in all.exceptions && InHorizon(today, e.day)
    {
      KeepMembers((e: ExceptionRow) => InHorizon(today, e.day), all.exceptions, e);
    }
  }

  function HolidayShare(zone: ServerZone, input: Input): Day -> seq<Override> {
    (d: Day) => HolidayDrafts(zone, input, d)
  }

  function Live(at: Instant): Override -> bool {
    (o: Override) => o.expiresAt > at
  }

  /** The live drafts, source by source. */
  lemma LiveBySource(zone: ServerZone, input: Input)
    ensures LiveDrafts(zone, input)
            == Keep(Live(input.now), MapRows(GrantOverride, input.grants))
               + Keep(Live(input.now), FlatMap(ExceptionShare(zone, input), input.exceptions))
               + Keep(Live(input.now), FlatMap(HolidayShare(zone, input), input.holidays))
  {
    var grants, exceptions := MapRows(GrantOverride, input.grants), ExceptionsInHorizon(zone, input);
    var holidays := FlatMap((d: Day) => HolidayDrafts(zone, input, d), input.holidays);
    EntriesByShare(zone, input);
    FlatMapEqual((d: Day) => HolidayDrafts(zone, input, d), HolidayShare(zone, input), input.holidays);
    KeepAlike((o: Override) => o.expiresAt > input.now, Live(input.now), Drafts(zone, input));
    assert Drafts(zone, input) == grants + (exceptions + holidays);
    KeepJoin(Live(input.now), grants, exceptions + holidays);
    KeepJoin(Live(input.now), exceptions, holidays);
  }

  /** What is left out when the rows are gathered would not have been compiled. */
  lemma GatheringLosesNothing(idBefore: (OverrideId, OverrideId) -> bool, zone: ServerZone, all: Input)
    ensures Compiled(idBefore, zone, GatheredRows(zone, all)) == Compiled(idBefore, zone, all)
  {
    LiveBySource(zone, all);
    LiveBySource(zone, GatheredRows(zone, all));
    GatheredGrants(zone, all);
    GatheredExceptions(zone, all);
    GatheredHolidays(zone, all);
  }

  function GrantShare(): GrantRow -> seq<Override> {
    (g: GrantRow) => [GrantOverride(g)]
  }

  lemma DeadGrant(at: Instant, g: GrantRow)
    requires g.expiresAt <= at
    ensures Keep(Live(at), GrantShare()(g)) == []
  {
    KeepNone(Live(at), [GrantOverride(g)]);
  }

  lemma GatheredGrants(zone: ServerZone, all: Input)
    ensures Keep(Live(all.now), MapRows(GrantOverride, GatheredRows(zone, all).grants))
            == Keep(Live(all.now), MapRows(GrantOverride, all.grants))
  {
    hide Live, Keep;
    var alive := AliveAt(all.now);
    forall g | g in all.grants && !alive(g) ensures Keep(Live(all.now), GrantShare()(g)) == [] {
      DeadGrant(all.now, g);
    }
    KeptBeforehand(Live(all.now), alive, GrantShare(), all.grants);
    MapRowsAre(GrantOverride, GrantShare(), all.grants);
    MapRowsAre(GrantOverride, GrantShare(), Keep(alive, all.grants));
  }

  lemma GatheredExceptions(zone: ServerZone, all: Input)
    ensures Keep(Live(all.now),
                 FlatMap(ExceptionShare(zone, GatheredRows(zone, all)), GatheredRows(zone, all).exceptions))
            == Keep(Live(all.now), FlatMap(ExceptionShare(zone, all), all.exceptions))
  {
    var today, gathered := zone.dayOf(all.now), GatheredRows(zone, all);
    FlatMapEqual(ExceptionShare(zone, gathered), ExceptionShare(zone, all), gathered.exceptions);
    KeptBeforehand(
      Live(all.now), (e: ExceptionRow) => InHorizon(today, e.day), ExceptionShare(zone, all), all.exceptions);
  }

  lemma GatheredHolidays(zone: ServerZone, all: Input)
    ensures Keep(Live(all.now), FlatMap(HolidayShare(zone, GatheredRows(zone, all)), GatheredRows(zone, all).holidays))
            == Keep(Live(all.now), FlatMap(HolidayShare(zone, all), all.holidays))
  {
    var today, gathered := zone.dayOf(all.now), GatheredRows(zone, all);
    forall d | d in gathered.holidays ensures HolidayShare(zone, gathered)(d) == HolidayShare(zone, all)(d) {
      SameSpoken(zone, all, d);
    }
    FlatMapEqual(HolidayShare(zone, gathered), HolidayShare(zone, all), gathered.holidays);
    KeptBeforehand(Live(all.now), (d: Day) => InHorizon(today, d), HolidayShare(zone, all), all.holidays);
  }

  // ---- Later ------------------------------------------------------------------------------------------------

  /** A grant, which no horizon cuts off, or a draft for a date of which this holds. */
  predicate GrantOrDate(o: Override, holds: Day -> bool) {
    o.id.Granted? || (o.effectiveDate.Some? && holds(o.effectiveDate.value))
  }

  function From(day: Day): Day -> bool {
    (d: Day) => day <= d
  }

  function UpTo(day: Day): Day -> bool {
    (d: Day) => d <= day
  }

  /** Nothing alive expires on the way, or is for a date now past. */
  predicate NothingLeaves(zone: ServerZone, a: Input, later: Instant) {
    forall o :: o in Drafts(zone, a) && o.expiresAt > a.now ==>
      o.expiresAt > later && GrantOrDate(o, From(zone.dayOf(later)))
  }

  /** Nothing alive is for a date the horizon has only now reached. */
  predicate NothingEnters(zone: ServerZone, a: Input, later: Instant) {
    forall o :: o in Drafts(zone, a.(now := later)) && o.expiresAt > later ==>
      GrantOrDate(o, UpTo(zone.dayOf(a.now) + HORIZON_DAYS))
  }

  lemma ExceptionIsDrafted(zone: ServerZone, input: Input, e: ExceptionRow, o: Override)
    requires e in input.exceptions && o in ExceptionShare(zone, input)(e)
    ensures o in Drafts(zone, input) && o.effectiveDate == Some(e.day) && o.id.FromException?
  {
    Meaning.ExceptionIsDrafted(zone, input, e, o);
    ExceptionDraftDate(zone, input.windows, e, o);
    ExceptionDraftId(zone, input.windows, e, o);
  }

  lemma HolidayIsDrafted(zone: ServerZone, input: Input, d: Day, o: Override)
    requires d in input.holidays && o in HolidayShare(zone, input)(d)
    ensures o in Drafts(zone, input) && o.effectiveDate == Some(d) && o.id.FromHoliday?
  {
    FlatMapHas((d: Day) => HolidayDrafts(zone, input, d), input.holidays, d, o);
    var w := WeekendDraftSource(zone, input.windows, d, ByHoliday(input.child), o);
  }

  lemma GrantIsDrafted(zone: ServerZone, input: Input, o: Override)
    requires o in MapRows(GrantOverride, input.grants)
    ensures o in Drafts(zone, input)
  {
  }

  lemma GrantsAlike(zone: ServerZone, a: Input, later: Instant)
    requires a.now <= later && NothingLeaves(zone, a, later)
    ensures Keep(Live(a.now), MapRows(GrantOverride, a.grants)) == Keep(Live(later), MapRows(GrantOverride, a.grants))
  {
    forall o | o in MapRows(GrantOverride, a.grants) ensures Live(a.now)(o) == Live(later)(o) {
      GrantIsDrafted(zone, a, o);
    }
    KeepAlike(Live(a.now), Live(later), MapRows(GrantOverride, a.grants));
  }

  lemma ExceptionAlike(zone: ServerZone, a: Input, later: Instant, e: ExceptionRow)
    requires a.now <= later && zone.dayOf(a.now) <= zone.dayOf(later) && e in a.exceptions
    requires NothingLeaves(zone, a, later) && NothingEnters(zone, a, later)
    ensures Keep(Live(a.now), ExceptionShare(zone, a)(e))
            == Keep(Live(later), ExceptionShare(zone, a.(now := later))(e))
  {
    hide ExceptionDrafts, Drafts;
    var b := a.(now := later);
    var before, after := ExceptionShare(zone, a)(e), ExceptionShare(zone, b)(e);
    forall o | o in before ensures Live(a.now)(o) ==> Live(later)(o) && e.day >= zone.dayOf(later) {
      ExceptionIsDrafted(zone, a, e, o);
    }
    forall o | o in after ensures Live(later)(o) ==> e.day <= zone.dayOf(a.now) + HORIZON_DAYS {
      ExceptionIsDrafted(zone, b, e, o);
    }
    if before == after {
      KeepAlike(Live(a.now), Live(later), before);
    } else {
      KeepNone(Live(a.now), before);
      KeepNone(Live(later), after);
    }
  }

  lemma HolidayAlike(zone: ServerZone, a: Input, later: Instant, d: Day)
    requires a.now <= later && zone.dayOf(a.now) <= zone.dayOf(later) && d in a.holidays
    requires NothingLeaves(zone, a, later) && NothingEnters(zone, a, later)
    ensures Keep(Live(a.now), HolidayShare(zone, a)(d)) == Keep(Live(later), HolidayShare(zone, a.(now := later))(d))
  {
    hide WeekendDrafts, Drafts;
    var b := a.(now := later);
    var before, after := HolidayShare(zone, a)(d), HolidayShare(zone, b)(d);
    forall o | o in before ensures Live(a.now)(o) ==> Live(later)(o) && d >= zone.dayOf(later) {
      HolidayIsDrafted(zone, a, d, o);
    }
    forall o | o in after ensures Live(later)(o) ==> d <= zone.dayOf(a.now) + HORIZON_DAYS {
      HolidayIsDrafted(zone, b, d, o);
    }
    if before == after {
      KeepAlike(Live(a.now), Live(later), before);
    } else {
      KeepNone(Live(a.now), before);
      KeepNone(Live(later), after);
    }
  }

  lemma StillTheSame(idBefore: (OverrideId, OverrideId) -> bool, zone: ServerZone, a: Input, later: Instant)
    requires a.now <= later && zone.dayOf(a.now) <= zone.dayOf(later)
    requires NothingLeaves(zone, a, later) && NothingEnters(zone, a, later)
    ensures Compiled(idBefore, zone, a) == Compiled(idBefore, zone, a.(now := later))
  {
    hide NothingLeaves, NothingEnters, Live, ExceptionShare, HolidayShare;
    var b := a.(now := later);
    LiveBySource(zone, a);
    LiveBySource(zone, b);
    GrantsAlike(zone, a, later);
    forall e | e in a.exceptions
      ensures Keep(Live(a.now), ExceptionShare(zone, a)(e)) == Keep(Live(later), ExceptionShare(zone, b)(e))
    {
      ExceptionAlike(zone, a, later, e);
    }
    KeptAlike(Live(a.now), Live(later), ExceptionShare(zone, a), ExceptionShare(zone, b), a.exceptions);
    forall d | d in a.holidays
      ensures Keep(Live(a.now), HolidayShare(zone, a)(d)) == Keep(Live(later), HolidayShare(zone, b)(d))
    {
      HolidayAlike(zone, a, later, d);
    }
    KeptAlike(Live(a.now), Live(later), HolidayShare(zone, a), HolidayShare(zone, b), a.holidays);
  }

  /** Compiled again later, these rows give the same document. */
  predicate SameLater(idBefore: (OverrideId, OverrideId) -> bool, zone: ServerZone, a: Input, later: Instant) {
    Compiled(idBefore, zone, a) == Compiled(idBefore, zone, a.(now := later))
  }

  lemma DraftIsInHorizon(zone: ServerZone, input: Input, o: Override)
    requires o in Drafts(zone, input)
    ensures GrantOrDate(o, (d: Day) => InHorizon(zone.dayOf(input.now), d))
  {
    var from := DraftProvenance(zone, input, o);
    DraftDate(zone, input, o, from);
  }

  /**
    Compiling the same rows later gives the same document exactly when no draft still alive
    expires on the way or is for a date now past, and none is for a date the horizon has only
    now reached.
   */
  lemma RecompileExactly(idBefore: (OverrideId, OverrideId) -> bool, zone: ServerZone, a: Input, later: Instant)
    requires a.now <= later && zone.dayOf(a.now) <= zone.dayOf(later)
    ensures SameLater(idBefore, zone, a, later)
            <==> NothingLeaves(zone, a, later) && NothingEnters(zone, a, later)
  {
    hide Compiled, Drafts;
    var b := a.(now := later);
    if Compiled(idBefore, zone, a) == Compiled(idBefore, zone, b) {
      forall o | o in Drafts(zone, a) && o.expiresAt > a.now
        ensures o.expiresAt > later && GrantOrDate(o, From(zone.dayOf(later)))
      {
        CompiledOverride(idBefore, zone, a, o);
        CompiledOverride(idBefore, zone, b, o);
        DraftIsInHorizon(zone, b, o);
      }
      forall o | o in Drafts(zone, b) && o.expiresAt > later
        ensures GrantOrDate(o, UpTo(zone.dayOf(a.now) + HORIZON_DAYS))
      {
        CompiledOverride(idBefore, zone, a, o);
        CompiledOverride(idBefore, zone, b, o);
        DraftIsInHorizon(zone, a, o);
      }
    }
    if NothingLeaves(zone, a, later) && NothingEnters(zone, a, later) {
      StillTheSame(idBefore, zone, a, later);
    }
  }

  /** Within one local date only an expiry can change anything. */
  lemma RecompileSameDayExactly(
      idBefore: (OverrideId, OverrideId) -> bool, zone: ServerZone, a: Input, later: Instant)
    requires a.now <= later && zone.dayOf(later) == zone.dayOf(a.now)
    ensures SameLater(idBefore, zone, a, later)
            <==> forall o :: o in Drafts(zone, a) ==> !(a.now < o.expiresAt <= later)
  {
    hide Compiled, Drafts;
    RecompileExactly(idBefore, zone, a, later);
    forall o | o in Drafts(zone, a) ensures GrantOrDate(o, From(zone.dayOf(later))) {
      DraftIsInHorizon(zone, a, o);
    }
    forall o | o in Drafts(zone, a.(now := later)) ensures GrantOrDate(o, UpTo(zone.dayOf(a.now) + HORIZON_DAYS)) {
      DraftIsInHorizon(zone, a.(now := later), o);
    }
  }
}
