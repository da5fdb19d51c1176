/**
  The compiled policy document as both readers see it, and the interface through
  which its wall-clock times become instants.
 */
module PolicyDocument {
  import opened Basics

  /** A local calendar day, counted from 1 January 1970. */
  type Day = int
  type Minute = m: int | 0 <= m < 1440
  /** Monday is 0. */
  type Weekday = d: int | 0 <= d < 7
  type Id = nat

  datatype Action = WarnOnly | LockOnly | ShutDown
  datatype Channel = Banner | Modal
  datatype Warning = Warning(leadMinutes: int, channel: Channel)

  /** A time that does not parse is `None`; a window with one never runs. */
  datatype Window = Window(
    id: Id,
    days: set<Weekday>,
    from: Option<Minute>,
    until: Option<Minute>,
    action: Action,
    shutdownGraceS: int,
    warnings: seq<Warning>)

  /**
    Where an override comes from. A grant keeps its row's id; a synthesised one is named
    by what produced it, so ids never collide and never change between compiles.
   */
  datatype OverrideId =
    | Granted(grant: Id)
    | FromException(exception: Id, window: Option<Id>, day: Day)
    | FromHoliday(child: Id, date: Day, holidayWindow: Id)

  datatype OverrideKind = Suspend | Extend | OtherKind

  /** Every relaxation expires. A date that does not parse is `None` and matches no day. */
  datatype Override = Override(
    id: OverrideId,
    kind: OverrideKind,
    windowId: Option<Id>,
    minutes: Option<int>,
    effectiveDate: Option<Day>,
    expiresAt: Instant)

  datatype Document = Document(windows: seq<Window>, overrides: seq<Override>)

  function WeekdayOf(day: Day): Weekday {
    (day + 3) % 7
  }

  /** 1 January 1970 was a Thursday, and each day is followed by the next weekday. */
  lemma WeekdaysFollow(day: Day)
    ensures WeekdayOf(0) == 3
    ensures WeekdayOf(day + 1) == if WeekdayOf(day) == 6 then 0 else WeekdayOf(day) + 1
  {
  }

  /** Which way an ambiguous wall-clock time is read. */
  datatype BoundaryKind = RestrictedFrom | RestrictedUntil

  /** Wall-clock times of one zone: the instant a time names, and the day an instant falls on. */
  datatype Resolver = Resolver(
    instant: (Day, Minute, BoundaryKind) -> Instant,
    dayOf: Instant -> Day)

  /**
    What the predicate needs of a zone: a boundary on a later day is still ahead, a
    boundary on an earlier day has passed, and a day's first instant is on that day.
   */
  ghost predicate Ordered(zone: Resolver) {
    && (forall d: Day, m: Minute, k: BoundaryKind, t: Instant ::
          zone.dayOf(t) < d ==> t < zone.instant(d, m, k))
    && (forall d: Day, m: Minute, k: BoundaryKind, t: Instant ::
          d < zone.dayOf(t) ==> zone.instant(d, m, k) <= t)
    && (forall d: Day :: zone.dayOf(zone.instant(d, 0, RestrictedFrom)) == d)
  }

  /** Does this window run on that day? */
  predicate RunsOn(window: Window, day: Day) {
    WeekdayOf(day) in window.days && window.from.Some? && window.until.Some?
  }

  /** A window whose end is not after its start runs into the next local day. */
  predicate Wraps(window: Window)
    requires window.from.Some? && window.until.Some?
  {
    window.until.value <= window.from.value
  }
}
