/**
  The enforcement ladder: warn before the boundary, lock and keep re-locking inside
  the window, and shut down once, after a warning was delivered and a grace elapsed.
 */
module Ladder {
  import opened Basics
  import opened PolicyDocument
  import opened BedtimePredicate

  const MAX_EPISODES_PER_24H := 5
  const REASSERT_INTERVAL: Duration := 60 * SECOND
  /** How much early a tick may land and still re-lock. */
  const REASSERT_TOLERANCE: Duration := 5 * SECOND
  const RELOCK_AFTER: Duration := REASSERT_INTERVAL - REASSERT_TOLERANCE

  datatype WarningOutcome = Delivered | Failed | NoConsoleUser

  datatype PreviousWarning = PreviousWarning(leadMinutes: int, outcome: WarningOutcome)

  datatype Record = WarningFailed(leadMinutes: int) | EpisodeEnded | BreakerTripped(episodes: nat) | EpisodeStarted

  datatype Effect =
    | DeliverWarning(leadMinutes: int, minutesLeft: int, channel: Channel, windowId: Id)
    | Lock
    | PowerOff
    | Audit(record: Record)

  datatype State = State(
    episodeStartedAt: Option<Instant>,
    warningsDelivered: set<int>,
    warningFailures: nat,
    warningsAttempted: set<int>,
    warningsAttemptedFor: Option<Instant>,
    lastLockAt: Option<Instant>,
    shutdownIssued: bool,
    recentEpisodes: seq<Instant>,
    breakerTripped: bool)

  const INITIAL := State(None, {}, 0, {}, None, None, false, [], false)

  datatype Decision = Decision(effects: seq<Effect>, state: State)

  /** The soonest boundary's shortest lead; the first of them when several tie. */
  function MostUrgent(due: seq<DueWarning>): (r: Option<DueWarning>)
    ensures r.None? <==> due == []
    ensures r.Some? ==> r.value in due && forall d :: d in due ==>
              r.value.boundaryAt < d.boundaryAt
              || (r.value.boundaryAt == d.boundaryAt && r.value.leadMinutes <= d.leadMinutes)
  {
    if due == [] then None
    else
      var best, next := MostUrgent(due[..|due| - 1]), due[|due| - 1];
      assert due == due[..|due| - 1] + [next];
      if best.None? || next.boundaryAt < best.value.boundaryAt
         || (next.boundaryAt == best.value.boundaryAt && next.leadMinutes < best.value.leadMinutes)
      then Some(next) else best
  }

  /** No warning was attempted in between. */
  predicate SameAttempts(before: State, after: State) {
    after.warningsAttemptedFor == before.warningsAttemptedFor && after.warningsAttempted == before.warningsAttempted
  }

  /** No warning is asked for. */
  predicate Silent(effects: seq<Effect>) {
    forall i :: 0 <= i < |effects| ==> !effects[i].DeliverWarning?
  }

  function FoldWarning(state: State, previous: Option<PreviousWarning>): (d: Decision)
    ensures Lock !in d.effects && PowerOff !in d.effects
    ensures d.state.lastLockAt == state.lastLockAt && d.state.episodeStartedAt == state.episodeStartedAt
    ensures Silent(d.effects) && SameAttempts(state, d.state)
  {
    if previous.None? || previous.value.outcome.NoConsoleUser? then Decision([], state)
    else if previous.value.outcome.Delivered? then
      Decision([], state.(warningsDelivered := state.warningsDelivered + {previous.value.leadMinutes},
                          warningFailures := 0))
    else
      Decision([Audit(WarningFailed(previous.value.leadMinutes))],
               state.(warningFailures := state.warningFailures + 1))
  }

  function CloseEpisode(state: State): Decision {
    if state.episodeStartedAt.None? then Decision([], state)
    else
      Decision([Audit(EpisodeEnded)],
               state.(episodeStartedAt := None, warningsDelivered := {}, warningsAttempted := {},
                      warningFailures := 0, shutdownIssued := false, lastLockAt := None))
  }

  function MinutesLeft(left: Duration): int {
    Max(1, (left + MINUTE - 1) / MINUTE)
  }

  /** One warning, the most urgent, once per boundary and lead; the stale ones count as attempted. */
  function Warn(state: State, due: seq<DueWarning>, now: Instant): Decision {
    var urgent := MostUrgent(due);
    if urgent.None? then Decision([], state)
    else
      var u := urgent.value;
      var attempted := if state.warningsAttemptedFor == Some(u.boundaryAt) then state.warningsAttempted else {};
      var passed := set d | d in due && d.boundaryAt == u.boundaryAt :: d.leadMinutes;
      Decision(
        if u.leadMinutes in attempted then []
        else [DeliverWarning(u.leadMinutes, MinutesLeft(u.boundaryAt - now), u.channel, u.windowId)],
        state.(warningsAttemptedFor := Some(u.boundaryAt), warningsAttempted := attempted + passed))
  }

  function OpenEpisode(state: State, now: Instant): (d: Decision)
    ensures Lock !in d.effects && PowerOff !in d.effects
    ensures d.state.lastLockAt == state.lastLockAt && d.state.episodeStartedAt.Some?
    ensures Silent(d.effects) && SameAttempts(state, d.state)
  {
    if state.episodeStartedAt.Some? then Decision([], state)
    else
      var recent := WithinDay(state.recentEpisodes + [now], now);
      var tripped := |recent| > MAX_EPISODES_PER_24H;
      Decision(
        (if tripped then [Audit(BreakerTripped(|recent|))] else []) + [Audit(EpisodeStarted)],
        state.(episodeStartedAt := Some(now), recentEpisodes := recent, breakerTripped := tripped))
  }

  predicate ShouldReassert(state: State, now: Instant) {
    state.lastLockAt.None? || now - state.lastLockAt.value >= RELOCK_AFTER
  }

  predicate MayEscalate(state: State, window: Window, now: Instant) {
    && window.action.ShutDown?
    && !state.shutdownIssued
    && state.warningsDelivered != {}
    && !state.breakerTripped
    && state.episodeStartedAt.Some?
    && now - state.episodeStartedAt.value >= window.shutdownGraceS * SECOND
  }

  function Enforce(state: State, window: Window, now: Instant): (d: Decision)
    ensures Lock in d.effects <==> !window.action.WarnOnly? && ShouldReassert(state, now)
    ensures PowerOff in d.effects <==> MayEscalate(state, window, now)
    ensures Silent(d.effects) && SameAttempts(state, d.state)
  {
    if window.action.WarnOnly? then Decision([], state)
    else
      var locks, escalates := ShouldReassert(state, now), MayEscalate(state, window, now);
      Decision(
        (if locks then [Lock] else []) + (if escalates then [PowerOff] else []),
        state.(lastLockAt := if locks then Some(now) else state.lastLockAt,
               shutdownIssued := state.shutdownIssued || escalates))
  }

  /** One tick, as a function of its inputs: the specification of `Step`. */
  function StepOf(e: Evaluation, state: State, now: Instant, previous: Option<PreviousWarning>): Decision {
    var folded := FoldWarning(state, previous);
    if e.activeWindow.None? then
      var closed := CloseEpisode(folded.state);
      var warned := Warn(closed.state, e.dueWarnings, now);
      Decision(folded.effects + closed.effects + warned.effects, warned.state)
    else
      var begun := OpenEpisode(folded.state, now);
      var enforced := Enforce(begun.state, e.activeWindow.value, now);
      Decision(folded.effects + begun.effects + enforced.effects, enforced.state)
  }

  method Step(e: Evaluation, incoming: State, now: Instant, previous: Option<PreviousWarning>)
    returns (decision: Decision)
    ensures decision == StepOf(e, incoming, now, previous)
  {
    var state := incoming;
    var effects: seq<Effect> := [];

    // What became of the last warning gates nothing below.
    if previous.Some? {
      match previous.value.outcome {
        case Delivered =>
          state := state.(warningsDelivered := state.warningsDelivered + {previous.value.leadMinutes},
                          warningFailures := 0);
        case Failed =>
          state := state.(warningFailures := state.warningFailures + 1);
          effects := effects + [Audit(WarningFailed(previous.value.leadMinutes))];
        case NoConsoleUser =>
      }
    }
    assert Decision(effects, state) == FoldWarning(incoming, previous);

    if !e.IsRestricted() {
      decision := StepOutside(e, state, effects, now);
      return;
    }
    decision := StepInside(e.activeWindow.value, state, effects, now);
  }

  method Begin(folded: State, before: seq<Effect>, now: Instant) returns (state: State, effects: seq<Effect>)
    ensures var begun := OpenEpisode(folded, now);
            state == begun.state && effects == before + begun.effects
  {
    hide WithinDay;
    state, effects := folded, before;
    if state.episodeStartedAt.None? {
      state := state.(episodeStartedAt := Some(now), recentEpisodes := WithinDay(state.recentEpisodes + [now], now));
      state := state.(breakerTripped := |state.recentEpisodes| > MAX_EPISODES_PER_24H);
      // Over the limit: no further rung, but locking goes on.
      if state.breakerTripped {
        effects := effects + [Audit(BreakerTripped(|state.recentEpisodes|))];
      }
      effects := effects + [Audit(EpisodeStarted)];
    }
  }

  method StepInside(window: Window, folded: State, before: seq<Effect>, now: Instant) returns (decision: Decision)
    ensures var begun := OpenEpisode(folded, now);
            var enforced := Enforce(begun.state, window, now);
            decision == Decision(before + begun.effects + enforced.effects, enforced.state)
  {
    var state, effects := Begin(folded, before, now);
    ghost var begun := OpenEpisode(folded, now);

    // A warn-only window never locks.
    if window.action.WarnOnly? {
      return Decision(effects, state);
    }

    // Only the action and the last lock decide this.
    if state.lastLockAt.None? || now - state.lastLockAt.value >= REASSERT_INTERVAL - REASSERT_TOLERANCE {
      effects := effects + [Lock];
      state := state.(lastLockAt := Some(now));
    }

    // Shutdown, last and most guarded.
    if !window.action.ShutDown? || state.shutdownIssued {
      return Decision(effects, state);
    }
    if state.warningsDelivered == {} {
      return Decision(effects, state);
    }
    if state.breakerTripped {
      return Decision(effects, state);
    }
    if now - state.episodeStartedAt.value < window.shutdownGraceS * SECOND {
      return Decision(effects, state);
    }
    assert MayEscalate(begun.state, window, now);
    effects := effects + [PowerOff];
    state := state.(shutdownIssued := true);
    decision := Decision(effects, state);
  }

  method StepOutside(e: Evaluation, folded: State, before: seq<Effect>, now: Instant) returns (decision: Decision)
    ensures var closed := CloseEpisode(folded);
            var warned := Warn(closed.state, e.dueWarnings, now);
            decision == Decision(before + closed.effects + warned.effects, warned.state)
  {
    var state, effects := folded, before;
    if state.episodeStartedAt.Some? {
      effects := effects + [Audit(EpisodeEnded)];
      state := state.(episodeStartedAt := None, warningsDelivered := {}, warningsAttempted := {},
                      warningFailures := 0, shutdownIssued := false, lastLockAt := None);
    }
    var urgent := MostUrgent(e.dueWarnings);
    if urgent.Some? {
      var u := urgent.value;
      // Another boundary: nothing attempted for it yet.
      if state.warningsAttemptedFor != Some(u.boundaryAt) {
        state := state.(warningsAttemptedFor := Some(u.boundaryAt), warningsAttempted := {});
      }
      var unseen := u.leadMinutes !in state.warningsAttempted;
      var passed := set d | d in e.dueWarnings && d.boundaryAt == u.boundaryAt :: d.leadMinutes;
      state := state.(warningsAttempted := state.warningsAttempted + passed);
      if unseen {
        effects := effects
          + [DeliverWarning(u.leadMinutes, MinutesLeft(u.boundaryAt - now), u.channel, u.windowId)];
      }
    }
    decision := Decision(effects, state);
  }

  /** The warnings on record once last tick's outcome is folded in. */
  function DeliveredSoFar(state: State, previous: Option<PreviousWarning>): set<int> {
    FoldWarning(state, previous).state.warningsDelivered
  }

  lemma OutsideFacts(e: Evaluation, state: State, now: Instant, previous: Option<PreviousWarning>)
    requires !e.IsRestricted()
    ensures var d := StepOf(e, state, now, previous);
            && Lock !in d.effects && PowerOff !in d.effects
            && d.state.episodeStartedAt.None?
            && d.state.recentEpisodes == state.recentEpisodes
            && d.state.breakerTripped == state.breakerTripped
            && (if state.episodeStartedAt.Some?
                then d.state.lastLockAt.None? && !d.state.shutdownIssued && d.state.warningsDelivered == {}
                else d.state.lastLockAt == state.lastLockAt && d.state.shutdownIssued == state.shutdownIssued
                     && d.state.warningsDelivered == DeliveredSoFar(state, previous))
  {
  }

  lemma InsideFacts(e: Evaluation, state: State, now: Instant, previous: Option<PreviousWarning>)
    requires e.IsRestricted()
    ensures var d, window := StepOf(e, state, now, previous), e.activeWindow.value;
            && (Lock in d.effects <==> !window.action.WarnOnly? && ShouldReassert(state, now))
            && d.state.lastLockAt == (if Lock in d.effects then Some(now) else state.lastLockAt)
            && d.state.warningsDelivered == DeliveredSoFar(state, previous)
            && (if state.episodeStartedAt.Some?
                then d.state.episodeStartedAt == state.episodeStartedAt
                     && d.state.recentEpisodes == state.recentEpisodes
                     && d.state.breakerTripped == state.breakerTripped
                else d.state.episodeStartedAt == Some(now)
                     && d.state.recentEpisodes == WithinDay(state.recentEpisodes + [now], now)
                     && d.state.breakerTripped == (|d.state.recentEpisodes| > MAX_EPISODES_PER_24H))
  {
    var folded := FoldWarning(state, previous);
    var begun := OpenEpisode(folded.state, now);
    var enforced := Enforce(begun.state, e.activeWindow.value, now);
    var d := StepOf(e, state, now, previous);
    assert d.effects == folded.effects + begun.effects + enforced.effects;
    assert Lock in d.effects <==> Lock in enforced.effects;
  }

  lemma EscalationFacts(e: Evaluation, state: State, now: Instant, previous: Option<PreviousWarning>)
    requires e.IsRestricted()
    ensures var d, window := StepOf(e, state, now, previous), e.activeWindow.value;
            && d.state.shutdownIssued == (state.shutdownIssued || PowerOff in d.effects)
            && d.state.episodeStartedAt.Some?
            && (PowerOff in d.effects <==>
                  && window.action.ShutDown?
                  && !state.shutdownIssued
                  && d.state.warningsDelivered != {}
                  && !d.state.breakerTripped
                  && now - d.state.episodeStartedAt.value >= window.shutdownGraceS * SECOND)
  {
  }

  // ---- Runs ---------------------------------------------------------------------------------

  datatype Tick = Tick(evaluation: Evaluation, now: Instant, previous: Option<PreviousWarning>)

  function StateBefore(start: State, ticks: seq<Tick>, n: nat): State
    requires n <= |ticks|
  {
    if n == 0 then start
    else
      var t := ticks[n - 1];
      StepOf(t.evaluation, StateBefore(start, ticks, n - 1), t.now, t.previous).state
  }

  function EffectsAt(start: State, ticks: seq<Tick>, n: nat): seq<Effect>
    requires n < |ticks|
  {
    StepOf(ticks[n].evaluation, StateBefore(start, ticks, n), ticks[n].now, ticks[n].previous).effects
  }

  predicate LocksAt(start: State, ticks: seq<Tick>, n: nat)
    requires n < |ticks|
  {
    Lock in EffectsAt(start, ticks, n)
  }

  predicate ShutsDownAt(start: State, ticks: seq<Tick>, n: nat)
    requires n < |ticks|
  {
    PowerOff in EffectsAt(start, ticks, n)
  }

  predicate RestrictedAt(ticks: seq<Tick>, n: nat)
    requires n < |ticks|
  {
    ticks[n].evaluation.IsRestricted()
  }

  predicate DeliveredAt(ticks: seq<Tick>, n: nat)
    requires n < |ticks|
  {
    ticks[n].previous.Some? && ticks[n].previous.value.outcome.Delivered?
  }

  predicate MustLockAt(ticks: seq<Tick>, n: nat)
    requires n < |ticks|
  {
    RestrictedAt(ticks, n) && !ticks[n].evaluation.activeWindow.value.action.WarnOnly?
  }

  /** The step facts at tick `n` of a run. */
  lemma Facts(start: State, ticks: seq<Tick>, n: nat)
    requires n < |ticks|
    ensures var state, next, t := StateBefore(start, ticks, n), StateBefore(start, ticks, n + 1), ticks[n];
            && DeliveredSoFar(state, t.previous) ==
               state.warningsDelivered + (if DeliveredAt(ticks, n) then {t.previous.value.leadMinutes} else {})
            && (!RestrictedAt(ticks, n) ==>
                  && !LocksAt(start, ticks, n) && !ShutsDownAt(start, ticks, n)
                  && next.episodeStartedAt.None?
                  && next.recentEpisodes == state.recentEpisodes
                  && next.breakerTripped == state.breakerTripped
                  && (if state.episodeStartedAt.Some?
                      then next.lastLockAt.None? && !next.shutdownIssued && next.warningsDelivered == {}
                      else next.lastLockAt == state.lastLockAt && next.shutdownIssued == state.shutdownIssued
                           && next.warningsDelivered == DeliveredSoFar(state, t.previous)))
            && (RestrictedAt(ticks, n) ==>
                  && (LocksAt(start, ticks, n) <==> MustLockAt(ticks, n) && ShouldReassert(state, t.now))
                  && next.lastLockAt == (if LocksAt(start, ticks, n) then Some(t.now) else state.lastLockAt)
                  && next.warningsDelivered == DeliveredSoFar(state, t.previous)
                  && next.shutdownIssued == (state.shutdownIssued || ShutsDownAt(start, ticks, n))
                  && (if state.episodeStartedAt.Some?
                      then next.episodeStartedAt == state.episodeStartedAt
                           && next.recentEpisodes == state.recentEpisodes
                           && next.breakerTripped == state.breakerTripped
                      else next.episodeStartedAt == Some(t.now)
                           && next.recentEpisodes == WithinDay(state.recentEpisodes + [t.now], t.now)
                           && next.breakerTripped == (|next.recentEpisodes| > MAX_EPISODES_PER_24H))
                  && (ShutsDownAt(start, ticks, n) <==>
                        && t.evaluation.activeWindow.value.action.ShutDown?
                        && !state.shutdownIssued
                        && next.warningsDelivered != {}
                        && !next.breakerTripped
                        && t.now - next.episodeStartedAt.value
                           >= t.evaluation.activeWindow.value.shutdownGraceS * SECOND))
  {
    var state, t := StateBefore(start, ticks, n), ticks[n];
    hide StepOf;
    if t.evaluation.IsRestricted() {
      InsideFacts(t.evaluation, state, t.now, t.previous);
      EscalationFacts(t.evaluation, state, t.now, t.previous);
    } else {
      OutsideFacts(t.evaluation, state, t.now, t.previous);
    }
  }

  predicate InOrder(ticks: seq<Tick>) {
    forall i, j :: 0 <= i <= j < |ticks| ==> ticks[i].now <= ticks[j].now
  }

  // ---- Warnings ---------------------------------------------------------------------------------

  /** Worded with the time actually left: whole minutes, rounded up, never none. */
  lemma MinutesLeftRoundsUp(left: Duration)
    requires left > 0
    ensures MinutesLeft(left) >= 1
    ensures (MinutesLeft(left) - 1) * MINUTE < left <= MinutesLeft(left) * MINUTE
  {
  }

  predicate Delivers(effects: seq<Effect>, leadMinutes: int) {
    exists i :: 0 <= i < |effects| && effects[i].DeliverWarning? && effects[i].leadMinutes == leadMinutes
  }

  /** What counts as already attempted for a boundary when a tick reaches its warnings. */
  function AttemptedFor(state: State, boundary: Instant): set<int> {
    if state.episodeStartedAt.None? && state.warningsAttemptedFor == Some(boundary) then state.warningsAttempted else {}
  }

  /** The one warning a tick asks for: the most urgent, unless it was attempted for that boundary. */
  lemma WarningFacts(e: Evaluation, state: State, now: Instant, previous: Option<PreviousWarning>, lead: int)
    ensures var d, urgent := StepOf(e, state, now, previous), MostUrgent(e.dueWarnings);
            && (Delivers(d.effects, lead) <==>
                  && !e.IsRestricted() && urgent.Some? && urgent.value.leadMinutes == lead
                  && lead !in AttemptedFor(state, urgent.value.boundaryAt))
            && (!e.IsRestricted() && urgent.Some? ==>
                  && d.state.warningsAttemptedFor == Some(urgent.value.boundaryAt)
                  && (forall w :: w in e.dueWarnings && w.boundaryAt == urgent.value.boundaryAt ==>
                        w.leadMinutes in d.state.warningsAttempted)
                  && AttemptedFor(state, urgent.value.boundaryAt) <= d.state.warningsAttempted)
            && (e.IsRestricted() || (urgent.None? && state.episodeStartedAt.None?) ==>
                  && d.state.warningsAttemptedFor == state.warningsAttemptedFor
                  && d.state.warningsAttempted == state.warningsAttempted)
  {
    hide StepOf, MostUrgent, AttemptedFor;
    if e.IsRestricted() {
      NoWarningInside(e, state, now, previous);
    } else {
      WarningOutside(e, state, now, previous, lead);
      AttemptsOutside(e, state, now, previous);
    }
  }

  /**
    What a warning says: it is a due one, of the soonest boundary and there of the shortest lead,
    on that one's channel, with the whole minutes left till the boundary, rounded up.
   */
  predicate Says(effect: Effect, due: seq<DueWarning>, now: Instant) {
    exists d :: d in due
      && (forall other :: other in due ==>
            d.boundaryAt < other.boundaryAt
            || (d.boundaryAt == other.boundaryAt && d.leadMinutes <= other.leadMinutes))
      && effect.DeliverWarning? && effect.leadMinutes == d.leadMinutes
      && effect.channel == d.channel && effect.windowId == d.windowId
      && (now < d.boundaryAt ==>
            (effect.minutesLeft - 1) * MINUTE < d.boundaryAt - now <= effect.minutesLeft * MINUTE)
  }

  lemma WarnSays(state: State, due: seq<DueWarning>, now: Instant)
    ensures var effects := Warn(state, due, now).effects;
            |effects| <= 1 && forall i :: 0 <= i < |effects| ==> Says(effects[i], due, now)
  {
    hide MostUrgent, Says;
    var urgent := MostUrgent(due);
    if urgent.Some? {
      UrgentSays(due, urgent.value, now);
    }
  }

  lemma UrgentSays(due: seq<DueWarning>, u: DueWarning, now: Instant)
    requires u in due && forall other :: other in due ==>
               u.boundaryAt < other.boundaryAt
               || (u.boundaryAt == other.boundaryAt && u.leadMinutes <= other.leadMinutes)
    ensures Says(DeliverWarning(u.leadMinutes, MinutesLeft(u.boundaryAt - now), u.channel, u.windowId), due, now)
  {
    if now < u.boundaryAt {
      MinutesLeftRoundsUp(u.boundaryAt - now);
    }
  }

  /** A tick asks for one warning at most, the last of its effects, and outside a window. */
  lemma WarningIsTrue(e: Evaluation, state: State, now: Instant, previous: Option<PreviousWarning>, i: nat)
    requires i < |StepOf(e, state, now, previous).effects|
    requires StepOf(e, state, now, previous).effects[i].DeliverWarning?
    ensures !e.IsRestricted() && i == |StepOf(e, state, now, previous).effects| - 1
    ensures Says(StepOf(e, state, now, previous).effects[i], e.dueWarnings, now)
  {
    hide MostUrgent, Warn, Says, OpenEpisode, Enforce;
    if e.IsRestricted() {
      NoWarningInside(e, state, now, previous);
      assert false;
    } else {
      var folded := FoldWarning(state, previous);
      var closed := CloseEpisode(folded.state);
      var warned := Warn(closed.state, e.dueWarnings, now);
      WarnSays(closed.state, e.dueWarnings, now);
      assert StepOf(e, state, now, previous).effects == folded.effects + closed.effects + warned.effects;
      assert i >= |folded.effects + closed.effects|;
    }
  }

  /** Inside a window no warning is asked for or attempted. */
  lemma NoWarningInside(e: Evaluation, state: State, now: Instant, previous: Option<PreviousWarning>)
    requires e.IsRestricted()
    ensures Silent(StepOf(e, state, now, previous).effects)
    ensures SameAttempts(state, StepOf(e, state, now, previous).state)
  {
    hide FoldWarning, OpenEpisode, Enforce;
  }

  lemma WarningOutside(e: Evaluation, state: State, now: Instant, previous: Option<PreviousWarning>, lead: int)
    requires !e.IsRestricted()
    ensures var urgent := MostUrgent(e.dueWarnings);
            Delivers(StepOf(e, state, now, previous).effects, lead) <==>
              && urgent.Some? && urgent.value.leadMinutes == lead
              && lead !in AttemptedFor(state, urgent.value.boundaryAt)
  {
    hide MostUrgent, Delivers, Warn;
    var folded := FoldWarning(state, previous);
    var closed := CloseEpisode(folded.state);
    OnlyTheLastDelivers(folded.effects + closed.effects, Warn(closed.state, e.dueWarnings, now).effects, lead);
    WarnDelivers(closed.state, e.dueWarnings, now, lead);
  }

  lemma AttemptsOutside(e: Evaluation, state: State, now: Instant, previous: Option<PreviousWarning>)
    requires !e.IsRestricted()
    ensures var next, urgent := StepOf(e, state, now, previous).state, MostUrgent(e.dueWarnings);
            && (urgent.Some? ==>
                  && next.warningsAttemptedFor == Some(urgent.value.boundaryAt)
                  && (forall w :: w in e.dueWarnings && w.boundaryAt == urgent.value.boundaryAt ==>
                        w.leadMinutes in next.warningsAttempted)
                  && AttemptedFor(state, urgent.value.boundaryAt) <= next.warningsAttempted)
            && (urgent.None? && state.episodeStartedAt.None? ==>
                  && next.warningsAttemptedFor == state.warningsAttemptedFor
                  && next.warningsAttempted == state.warningsAttempted)
  {
    hide MostUrgent;
    UrgentIsDue(e.dueWarnings);
  }

  lemma UrgentIsDue(due: seq<DueWarning>)
    ensures MostUrgent(due).Some? ==> MostUrgent(due).value in due
  {
  }

  lemma WarnDelivers(state: State, due: seq<DueWarning>, now: Instant, lead: int)
    ensures var urgent := MostUrgent(due);
            Delivers(Warn(state, due, now).effects, lead) <==>
              && urgent.Some? && urgent.value.leadMinutes == lead
              && !(state.warningsAttemptedFor == Some(urgent.value.boundaryAt) && lead in state.warningsAttempted)
  {
    hide MostUrgent;
    var effects := Warn(state, due, now).effects;
    assert effects == [] || (|effects| == 1 && effects[0].DeliverWarning?);
    assert effects != [] ==> (Delivers(effects, lead) <==> effects[0].leadMinutes == lead);
  }

  lemma OnlyTheLastDelivers(before: seq<Effect>, last: seq<Effect>, lead: int)
    requires forall i :: 0 <= i < |before| ==> !before[i].DeliverWarning?
    ensures Delivers(before + last, lead) <==> Delivers(last, lead)
  {
    if Delivers(last, lead) {
      var i :| 0 <= i < |last| && last[i].DeliverWarning? && last[i].leadMinutes == lead;
      assert (before + last)[|before| + i] == last[i];
    }
  }

  /** The boundary a tick warns about, when it is not restricted and some warning is due. */
  function BoundaryAt(ticks: seq<Tick>, n: nat): Option<Instant>
    requires n < |ticks|
  {
    var urgent := MostUrgent(ticks[n].evaluation.dueWarnings);
    if RestrictedAt(ticks, n) || urgent.None? then None else Some(urgent.value.boundaryAt)
  }

  predicate WarnsAt(start: State, ticks: seq<Tick>, n: nat, boundary: Instant, lead: int)
    requires n < |ticks|
  {
    BoundaryAt(ticks, n) == Some(boundary) && Delivers(EffectsAt(start, ticks, n), lead)
  }

  /** The tick turns to another boundary, or ends an episode: a different night. */
  predicate StartsClean(start: State, ticks: seq<Tick>, n: nat, boundary: Instant)
    requires n < |ticks|
  {
    || (BoundaryAt(ticks, n).Some? && BoundaryAt(ticks, n) != Some(boundary))
    || (!RestrictedAt(ticks, n) && StateBefore(start, ticks, n).episodeStartedAt.Some?)
  }

  /** The tick turned to the boundary, with a warning of that lead due for it, given or not. */
  predicate DueAt(ticks: seq<Tick>, n: nat, boundary: Instant, lead: int)
    requires n < |ticks|
  {
    && BoundaryAt(ticks, n) == Some(boundary)
    && exists d :: d in ticks[n].evaluation.dueWarnings && d.boundaryAt == boundary && d.leadMinutes == lead
  }

  lemma {:induction false} AttemptRemembered(
      start: State, ticks: seq<Tick>, i: nat, n: nat, boundary: Instant, lead: int)
    requires i < n <= |ticks| && DueAt(ticks, i, boundary, lead)
    requires forall k :: i < k < n ==> !StartsClean(start, ticks, k, boundary)
    ensures StateBefore(start, ticks, n).warningsAttemptedFor == Some(boundary)
    ensures lead in StateBefore(start, ticks, n).warningsAttempted
  {
    hide StepOf, MostUrgent, Delivers;
    var t := ticks[n - 1];
    WarningFacts(t.evaluation, StateBefore(start, ticks, n - 1), t.now, t.previous, lead);
    if i < n - 1 {
      AttemptRemembered(start, ticks, i, n - 1, boundary, lead);
      assert !StartsClean(start, ticks, n - 1, boundary);
    }
  }

  lemma DeliveredIsDue(start: State, ticks: seq<Tick>, n: nat, boundary: Instant, lead: int)
    requires n < |ticks| && WarnsAt(start, ticks, n, boundary, lead)
    ensures DueAt(ticks, n, boundary, lead)
  {
    hide StepOf, MostUrgent, Delivers;
    var t := ticks[n];
    WarningFacts(t.evaluation, StateBefore(start, ticks, n), t.now, t.previous, lead);
    assert MostUrgent(t.evaluation.dueWarnings).value in t.evaluation.dueWarnings;
  }

  /**
    A warning that came due while a more urgent one of its boundary was, is not given later:
    unless a tick in between turned to another boundary or ended an episode.
   */
  lemma StaleWarningsAreDropped(start: State, ticks: seq<Tick>, i: nat, j: nat, boundary: Instant, lead: int)
    requires i < j < |ticks|
    requires DueAt(ticks, i, boundary, lead) && WarnsAt(start, ticks, j, boundary, lead)
    ensures exists k :: i < k <= j && StartsClean(start, ticks, k, boundary)
  {
    hide StepOf, MostUrgent, Delivers, StateBefore, DueAt;
    if forall k :: i < k <= j ==> !StartsClean(start, ticks, k, boundary) {
      AttemptRemembered(start, ticks, i, j, boundary, lead);
      assert !StartsClean(start, ticks, j, boundary);
      var t := ticks[j];
      WarningFacts(t.evaluation, StateBefore(start, ticks, j), t.now, t.previous, lead);
      assert false;
    }
  }

  /**
    Over any run a warning fires once for its boundary and lead: between two firings lies
    a tick for another boundary or the end of an episode.
   */
  lemma OneWarningPerBoundary(start: State, ticks: seq<Tick>, i: nat, j: nat, boundary: Instant, lead: int)
    requires i < j < |ticks|
    requires WarnsAt(start, ticks, i, boundary, lead) && WarnsAt(start, ticks, j, boundary, lead)
    ensures exists k :: i < k <= j && StartsClean(start, ticks, k, boundary)
  {
    hide StepOf, MostUrgent, Delivers, StateBefore;
    DeliveredIsDue(start, ticks, i, boundary, lead);
    StaleWarningsAreDropped(start, ticks, i, j, boundary, lead);
  }

  // ---- What a tick reports ------------------------------------------------------------------------

  /** Where an effect stands among those of one tick. */
  function Rank(effect: Effect): nat {
    match effect
    case Audit(WarningFailed(_)) => 0
    case Audit(EpisodeEnded) => 1
    case Audit(BreakerTripped(_)) => 1
    case Audit(EpisodeStarted) => 2
    case DeliverWarning(_, _, _, _) => 3
    case Lock => 4
    case PowerOff => 5
  }

  predicate Ascending(effects: seq<Effect>, low: nat, high: nat) {
    && (forall i :: 0 <= i < |effects| ==> low <= Rank(effects[i]) < high)
    && (forall i, j :: 0 <= i < j < |effects| ==> Rank(effects[i]) < Rank(effects[j]))
  }

  lemma AscendingJoined(a: seq<Effect>, b: seq<Effect>, low: nat, mid: nat, high: nat)
    requires low <= mid <= high && Ascending(a, low, mid) && Ascending(b, mid, high)
    ensures Ascending(a + b, low, high)
  {
    hide Rank;
  }

  lemma PiecesAscend(state: State, previous: Option<PreviousWarning>, due: seq<DueWarning>, now: Instant)
    ensures Ascending(FoldWarning(state, previous).effects, 0, 1)
    ensures Ascending(CloseEpisode(state).effects, 1, 3)
    ensures Ascending(Warn(state, due, now).effects, 3, 6)
  {
    hide MostUrgent;
  }

  lemma OneAscends(effect: Effect, low: nat, high: nat)
    requires low <= Rank(effect) < high
    ensures Ascending([effect], low, high)
  {
    hide Rank;
  }

  lemma OpeningAscends(state: State, now: Instant)
    ensures Ascending(OpenEpisode(state, now).effects, 1, 3)
  {
    hide WithinDay, Ascending;
    var trips := Audit(BreakerTripped(|WithinDay(state.recentEpisodes + [now], now)|));
    NoneAscend(1, 3);
    NoneAscend(1, 2);
    OneAscends(trips, 1, 2);
    OneAscends(Audit(EpisodeStarted), 2, 3);
    AscendingJoined([trips], [Audit(EpisodeStarted)], 1, 2, 3);
    AscendingJoined([], [Audit(EpisodeStarted)], 1, 2, 3);
  }

  lemma EnforcingAscends(state: State, window: Window, now: Instant)
    ensures Ascending(Enforce(state, window, now).effects, 3, 6)
  {
    hide ShouldReassert, MayEscalate, Ascending;
    var locks := if ShouldReassert(state, now) then [Lock] else [];
    var escalates := if MayEscalate(state, window, now) then [PowerOff] else [];
    NoneAscend(3, 5);
    NoneAscend(5, 6);
    NoneAscend(3, 6);
    OneAscends(Lock, 3, 5);
    OneAscends(PowerOff, 5, 6);
    AscendingJoined(locks, escalates, 3, 5, 6);
  }

  lemma NoneAscend(low: nat, high: nat)
    ensures Ascending([], low, high)
  {
  }

  /** No kind of effect comes twice; a shutdown comes last, a lock before it, and reports first. */
  lemma EffectsInOrder(e: Evaluation, state: State, now: Instant, previous: Option<PreviousWarning>)
    ensures Ascending(StepOf(e, state, now, previous).effects, 0, 6)
  {
    hide FoldWarning, CloseEpisode, Warn, OpenEpisode, Enforce, Ascending;
    var folded := FoldWarning(state, previous);
    PiecesAscend(state, previous, [], now);
    if e.IsRestricted() {
      var begun := OpenEpisode(folded.state, now);
      var enforced := Enforce(begun.state, e.activeWindow.value, now);
      OpeningAscends(folded.state, now);
      EnforcingAscends(begun.state, e.activeWindow.value, now);
      AscendingJoined(folded.effects, begun.effects, 0, 1, 3);
      AscendingJoined(folded.effects + begun.effects, enforced.effects, 0, 3, 6);
    } else {
      var closed := CloseEpisode(folded.state);
      var warned := Warn(closed.state, e.dueWarnings, now);
      PiecesAscend(folded.state, previous, [], now);
      PiecesAscend(closed.state, previous, e.dueWarnings, now);
      AscendingJoined(folded.effects, closed.effects, 0, 1, 3);
      AscendingJoined(folded.effects + closed.effects, warned.effects, 0, 3, 6);
    }
  }

  /** The episodes started in the day up to `now`, one starting now among them. */
  function EpisodesWithin(state: State, now: Instant): nat {
    |PlacesWithinDay(state.recentEpisodes + [now], now)|
  }

  /**
    What goes on record: a failed warning with its lead; an episode's start and end; and, at a
    start, the day's episodes once they are over five.
   */
  lemma RecordsExactly(
      e: Evaluation, state: State, now: Instant, previous: Option<PreviousWarning>, record: Record)
    ensures var starts := e.IsRestricted() && state.episodeStartedAt.None?;
            Audit(record) in StepOf(e, state, now, previous).effects
            <==> match record
                 case WarningFailed(lead) => previous == Some(PreviousWarning(lead, Failed))
                 case EpisodeStarted => starts
                 case EpisodeEnded => !e.IsRestricted() && state.episodeStartedAt.Some?
                 case BreakerTripped(n) => starts && n == EpisodesWithin(state, now) && n > 5
  {
    hide MostUrgent, WithinDay, PlacesWithinDay;
    WithinDayCounted(state.recentEpisodes + [now], now);
    var folded := FoldWarning(state, previous);
    FoldedRecords(state, previous, record);
    if e.IsRestricted() {
      var begun := OpenEpisode(folded.state, now);
      var enforced := Enforce(begun.state, e.activeWindow.value, now);
      BegunRecords(folded.state, now, record);
      hide FoldWarning, OpenEpisode;
      assert Audit(record) !in enforced.effects;
      assert StepOf(e, state, now, previous).effects == folded.effects + begun.effects + enforced.effects;
    } else {
      var closed := CloseEpisode(folded.state);
      var warned := Warn(closed.state, e.dueWarnings, now);
      hide FoldWarning;
      assert Audit(record) !in warned.effects;
      assert StepOf(e, state, now, previous).effects == folded.effects + closed.effects + warned.effects;
    }
  }

  lemma FoldedRecords(state: State, previous: Option<PreviousWarning>, record: Record)
    ensures var folded := FoldWarning(state, previous);
            && (Audit(record) in folded.effects
                <==> record.WarningFailed? && previous == Some(PreviousWarning(record.leadMinutes, Failed)))
            && folded.state.recentEpisodes == state.recentEpisodes
  {
  }

  lemma BegunRecords(state: State, now: Instant, record: Record)
    ensures var recent := |WithinDay(state.recentEpisodes + [now], now)|;
            Audit(record) in OpenEpisode(state, now).effects
            <==> state.episodeStartedAt.None?
                 && (record.EpisodeStarted? || (record.BreakerTripped? && record.episodes == recent && recent > 5))
  {
    hide WithinDay;
  }

  /** The failures on record: those in a row since a warning was last delivered, or an episode last ended. */
  lemma FailuresExactly(e: Evaluation, state: State, now: Instant, previous: Option<PreviousWarning>)
    ensures StepOf(e, state, now, previous).state.warningFailures
            == if !e.IsRestricted() && state.episodeStartedAt.Some? then 0
               else if previous.Some? && previous.value.outcome.Delivered? then 0
               else if previous.Some? && previous.value.outcome.Failed? then state.warningFailures + 1
               else state.warningFailures
  {
    hide MostUrgent, WithinDay;
  }

  // ---- Non-interference of the lock -----------------------------------------------------------

  /** Same evaluations at the same instants; warnings may have gone any other way. */
  predicate SameSchedule(a: seq<Tick>, b: seq<Tick>) {
    |a| == |b| && forall i :: 0 <= i < |a| ==> a[i].evaluation == b[i].evaluation && a[i].now == b[i].now
  }

  /**
    Nothing but the evaluations and instants reaches the lock: warning outcomes, failure
    counts and breaker histories may all differ, and the same ticks lock.
   */
  lemma {:induction false} LockIgnoresEverythingElse(s: State, t: State, a: seq<Tick>, b: seq<Tick>, n: nat)
    requires SameSchedule(a, b) && n <= |a|
    requires s.lastLockAt == t.lastLockAt && s.episodeStartedAt.Some? == t.episodeStartedAt.Some?
    ensures var p, q := StateBefore(s, a, n), StateBefore(t, b, n);
            p.lastLockAt == q.lastLockAt && p.episodeStartedAt.Some? == q.episodeStartedAt.Some?
    ensures n < |a| ==> (LocksAt(s, a, n) <==> LocksAt(t, b, n))
  {
    hide StepOf;
    if n > 0 {
      LockIgnoresEverythingElse(s, t, a, b, n - 1);
      Facts(s, a, n - 1);
      Facts(t, b, n - 1);
    }
    if n < |a| {
      Facts(s, a, n);
      Facts(t, b, n);
    }
  }

  // ---- Re-locking -------------------------------------------------------------------------------

  /** The last tick of the current restricted stretch, before `n`, that had to lock. */
  function LastMustLock(ticks: seq<Tick>, n: nat): (r: Option<nat>)
    requires n <= |ticks|
    ensures r.Some? ==> r.value < n && MustLockAt(ticks, r.value)
  {
    if n == 0 || !RestrictedAt(ticks, n - 1) then None
    else if MustLockAt(ticks, n - 1) then Some(n - 1)
    else LastMustLock(ticks, n - 1)
  }

  /** A tick that must lock comes late enough after the one before it in its stretch. */
  predicate KeepsUpAt(ticks: seq<Tick>, n: nat)
    requires n < |ticks|
  {
    var last := LastMustLock(ticks, n);
    MustLockAt(ticks, n) && last.Some? ==> ticks[n].now - ticks[last.value].now >= RELOCK_AFTER
  }

  lemma {:induction false} LastLockTracked(ticks: seq<Tick>, n: nat)
    requires n <= |ticks|
    requires forall k :: 0 <= k < n ==> KeepsUpAt(ticks, k)
    ensures var state, last := StateBefore(INITIAL, ticks, n), LastMustLock(ticks, n);
            && (state.episodeStartedAt.Some? <==> n > 0 && RestrictedAt(ticks, n - 1))
            && state.lastLockAt == if last.Some? then Some(ticks[last.value].now) else None
    ensures forall k :: 0 <= k < n && MustLockAt(ticks, k) ==> LocksAt(INITIAL, ticks, k)
    ensures n < |ticks| ==> (KeepsUpAt(ticks, n) <==> (MustLockAt(ticks, n) ==> LocksAt(INITIAL, ticks, n)))
  {
    hide StepOf;
    if n > 0 {
      LastLockTracked(ticks, n - 1);
      assert KeepsUpAt(ticks, n - 1);
      Facts(INITIAL, ticks, n - 1);
    }
    if n < |ticks| {
      Facts(INITIAL, ticks, n);
    }
  }

  /**
    Every tick that must lock does lock, exactly when consecutive ones of each restricted
    stretch are at least 55 seconds apart. A clock that steps back mid-window breaks it.
   */
  lemma RelocksExactlyWhenTicksKeepUp(ticks: seq<Tick>)
    ensures (forall n :: 0 <= n < |ticks| && MustLockAt(ticks, n) ==> LocksAt(INITIAL, ticks, n))
            <==> (forall n :: 0 <= n < |ticks| ==> KeepsUpAt(ticks, n))
  {
    if forall n :: 0 <= n < |ticks| ==> KeepsUpAt(ticks, n) {
      LastLockTracked(ticks, |ticks|);
    } else {
      var n := FirstTooSoon(ticks, 0);
      LastLockTracked(ticks, n);
    }
  }

  lemma FirstTooSoon(ticks: seq<Tick>, from: nat) returns (n: nat)
    requires from <= |ticks|
    requires forall k :: 0 <= k < from ==> KeepsUpAt(ticks, k)
    requires exists k :: 0 <= k < |ticks| && !KeepsUpAt(ticks, k)
    ensures n < |ticks| && !KeepsUpAt(ticks, n)
    ensures forall k :: 0 <= k < n ==> KeepsUpAt(ticks, k)
    decreases |ticks| - from
  {
    if from < |ticks| && KeepsUpAt(ticks, from) {
      n := FirstTooSoon(ticks, from + 1);
    } else {
      n := from;
    }
  }

  // ---- Shutdown safety ----------------------------------------------------------------------------

  predicate EpisodeStartsAt(ticks: seq<Tick>, n: nat)
    requires n < |ticks|
  {
    RestrictedAt(ticks, n) && (n == 0 || !RestrictedAt(ticks, n - 1))
  }

  predicate EpisodeEndsAt(ticks: seq<Tick>, n: nat)
    requires n < |ticks|
  {
    !RestrictedAt(ticks, n) && n > 0 && RestrictedAt(ticks, n - 1)
  }

  /** Where the episode of a restricted tick began. */
  function EpisodeOf(ticks: seq<Tick>, n: nat): (start: nat)
    requires n < |ticks| && RestrictedAt(ticks, n)
    ensures start <= n && EpisodeStartsAt(ticks, start)
    ensures forall k :: start <= k <= n ==> RestrictedAt(ticks, k)
  {
    if n > 0 && RestrictedAt(ticks, n - 1) then EpisodeOf(ticks, n - 1) else n
  }

  /** Some warning was reported delivered at or before tick `n`, and no episode ended since. */
  predicate WarnedSinceLastEpisode(ticks: seq<Tick>, n: nat)
    requires n < |ticks|
  {
    exists w :: 0 <= w <= n && DeliveredAt(ticks, w) && forall k :: w <= k <= n ==> !EpisodeEndsAt(ticks, k)
  }

  lemma {:induction false} EveryStartIsListed(ticks: seq<Tick>, n: nat, s: nat)
    requires s < n <= |ticks| && EpisodeStartsAt(ticks, s)
    ensures s in Starts(ticks, n)
  {
    if s < n - 1 {
      EveryStartIsListed(ticks, n - 1, s);
    }
  }

  predicate Indices(ticks: seq<Tick>, indices: seq<nat>) {
    forall i :: 0 <= i < |indices| ==> indices[i] < |ticks|
  }

  /** The episode starts before tick `n`, in order. */
  function Starts(ticks: seq<Tick>, n: nat): (starts: seq<nat>)
    requires n <= |ticks|
    ensures Indices(ticks, starts)
    ensures starts != [] ==> starts[|starts| - 1] < n
  {
    if n == 0 then []
    else if EpisodeStartsAt(ticks, n - 1) then Starts(ticks, n - 1) + [n - 1]
    else Starts(ticks, n - 1)
  }

  /** Of those, the ones less than a day before `now`. */
  function Recent(ticks: seq<Tick>, starts: seq<nat>, now: Instant): (recent: seq<nat>)
    requires Indices(ticks, starts)
    ensures Indices(ticks, recent)
  {
    if starts == [] then []
    else
      var front, s := Recent(ticks, starts[..|starts| - 1], now), starts[|starts| - 1];
      if now - ticks[s].now < DAY then front + [s] else front
  }

  function NowsOf(ticks: seq<Tick>, indices: seq<nat>): (nows: seq<Instant>)
    requires Indices(ticks, indices)
    ensures |nows| == |indices|
  {
    if indices == [] then []
    else NowsOf(ticks, indices[..|indices| - 1]) + [ticks[indices[|indices| - 1]].now]
  }

  /** The episode starts of the trailing day, as of the latest start before tick `n`. */
  function TrailingDay(ticks: seq<Tick>, n: nat): (recent: seq<nat>)
    requires n <= |ticks|
    ensures Indices(ticks, recent)
  {
    var starts := Starts(ticks, n);
    if starts == [] then [] else Recent(ticks, starts, ticks[starts[|starts| - 1]].now)
  }

  lemma NowsOfLast(ticks: seq<Tick>, indices: seq<nat>, s: nat)
    requires Indices(ticks, indices) && s < |ticks|
    ensures NowsOf(ticks, indices + [s]) == NowsOf(ticks, indices) + [ticks[s].now]
  {
    assert (indices + [s])[..|indices|] == indices;
  }

  lemma RecentLast(ticks: seq<Tick>, starts: seq<nat>, s: nat, now: Instant)
    requires Indices(ticks, starts) && s < |ticks|
    ensures Recent(ticks, starts + [s], now)
            == if now - ticks[s].now < DAY then Recent(ticks, starts, now) + [s] else Recent(ticks, starts, now)
  {
    assert (starts + [s])[..|starts|] == starts;
  }

  lemma {:induction false} RecentMembers(ticks: seq<Tick>, starts: seq<nat>, now: Instant, s: nat)
    requires Indices(ticks, starts) && s in starts && now - ticks[s].now < DAY
    ensures s in Recent(ticks, starts, now)
  {
    var front, last := starts[..|starts| - 1], starts[|starts| - 1];
    assert starts == front + [last];
    RecentLast(ticks, front, last, now);
    if s in front {
      RecentMembers(ticks, front, now, s);
    }
  }

  /** Dropping the starts a day old, then dropping again later, is dropping once later. */
  lemma {:induction false} FilteringAgain(ticks: seq<Tick>, starts: seq<nat>, earlier: Instant, later: Instant)
    requires Indices(ticks, starts) && earlier <= later
    ensures WithinDay(NowsOf(ticks, Recent(ticks, starts, earlier)), later)
            == NowsOf(ticks, Recent(ticks, starts, later))
  {
    if starts != [] {
      var front, s := starts[..|starts| - 1], starts[|starts| - 1];
      FilteringAgain(ticks, front, earlier, later);
      assert starts == front + [s];
      RecentLast(ticks, front, s, earlier);
      RecentLast(ticks, front, s, later);
      NowsOfLast(ticks, Recent(ticks, front, earlier), s);
      NowsOfLast(ticks, Recent(ticks, front, later), s);
      WithinDayLast(NowsOf(ticks, Recent(ticks, front, earlier)), ticks[s].now, later);
      hide Recent, NowsOf, WithinDay;
    }
  }

  lemma NowsAdvance(ticks: seq<Tick>, i: nat, j: nat)
    requires i <= j < |ticks| && InOrder(ticks)
    ensures ticks[i].now <= ticks[j].now
  {
  }

  lemma StartsStep(ticks: seq<Tick>, n: nat)
    requires 0 < n <= |ticks|
    ensures Starts(ticks, n)
            == if EpisodeStartsAt(ticks, n - 1) then Starts(ticks, n - 1) + [n - 1] else Starts(ticks, n - 1)
  {
  }

  lemma TrailingDayFrom(ticks: seq<Tick>, n: nat, past: seq<nat>)
    requires 0 < n <= |ticks| && Indices(ticks, past) && Starts(ticks, n) == past + [n - 1]
    ensures TrailingDay(ticks, n) == Recent(ticks, past, ticks[n - 1].now) + [n - 1]
  {
    hide Starts, Recent;
    RecentLast(ticks, past, n - 1, ticks[n - 1].now);
  }

  lemma TrailingDaySame(ticks: seq<Tick>, n: nat)
    requires 0 < n <= |ticks| && Starts(ticks, n) == Starts(ticks, n - 1)
    ensures TrailingDay(ticks, n) == TrailingDay(ticks, n - 1)
  {
    hide Starts, Recent;
  }

  lemma TrailingDayStep(ticks: seq<Tick>, n: nat)
    requires 0 < n <= |ticks|
    ensures EpisodeStartsAt(ticks, n - 1) ==>
              TrailingDay(ticks, n) == Recent(ticks, Starts(ticks, n - 1), ticks[n - 1].now) + [n - 1]
    ensures !EpisodeStartsAt(ticks, n - 1) ==> TrailingDay(ticks, n) == TrailingDay(ticks, n - 1)
  {
    StartsStep(ticks, n);
    hide Starts, Recent, TrailingDay, EpisodeStartsAt;
    if EpisodeStartsAt(ticks, n - 1) {
      TrailingDayFrom(ticks, n, Starts(ticks, n - 1));
    } else {
      TrailingDaySame(ticks, n);
    }
  }

  lemma TrailingDayRefiltered(ticks: seq<Tick>, n: nat)
    requires n < |ticks| && InOrder(ticks)
    ensures WithinDay(NowsOf(ticks, TrailingDay(ticks, n)), ticks[n].now)
            == NowsOf(ticks, Recent(ticks, Starts(ticks, n), ticks[n].now))
  {
    var past := Starts(ticks, n);
    if past != [] {
      var last := past[|past| - 1];
      NowsAdvance(ticks, last, n);
      FilteringAgain(ticks, past, ticks[last].now, ticks[n].now);
    }
  }

  lemma {:induction false} EpisodeOpenTracked(ticks: seq<Tick>, n: nat)
    requires n <= |ticks|
    ensures StateBefore(INITIAL, ticks, n).episodeStartedAt.Some? <==> n > 0 && RestrictedAt(ticks, n - 1)
  {
    hide StepOf;
    if n > 0 {
      Facts(INITIAL, ticks, n - 1);
    }
  }

  /** The breaker's memory is exactly the episode starts of the trailing day. */
  lemma {:induction false} RecentEpisodesExact(ticks: seq<Tick>, n: nat)
    requires n <= |ticks| && InOrder(ticks)
    ensures StateBefore(INITIAL, ticks, n).recentEpisodes == NowsOf(ticks, TrailingDay(ticks, n))
  {
    hide StateBefore, TrailingDay, NowsOf, InOrder;
    if n == 0 {
      NothingRecent(ticks);
    } else {
      RecentEpisodesExact(ticks, n - 1);
      RecentEpisodesStep(ticks, n - 1);
    }
  }

  lemma NothingRecent(ticks: seq<Tick>)
    ensures StateBefore(INITIAL, ticks, 0).recentEpisodes == NowsOf(ticks, TrailingDay(ticks, 0))
  {
    hide StepOf;
    assert TrailingDay(ticks, 0) == [];
  }

  lemma RecentEpisodesStep(ticks: seq<Tick>, n: nat)
    requires n < |ticks| && InOrder(ticks)
    requires StateBefore(INITIAL, ticks, n).recentEpisodes == NowsOf(ticks, TrailingDay(ticks, n))
    ensures StateBefore(INITIAL, ticks, n + 1).recentEpisodes == NowsOf(ticks, TrailingDay(ticks, n + 1))
  {
    hide StepOf, StateBefore, WithinDay, NowsOf, Recent, Starts, TrailingDay, InOrder;
    EpisodeOpenTracked(ticks, n);
    Facts(INITIAL, ticks, n);
    TrailingDayStep(ticks, n + 1);
    if EpisodeStartsAt(ticks, n) {
      var now, past := ticks[n].now, Starts(ticks, n);
      TrailingDayRefiltered(ticks, n);
      WithinDayLast(StateBefore(INITIAL, ticks, n).recentEpisodes, now, now);
      NowsOfLast(ticks, Recent(ticks, past, now), n);
    }
  }

  /** While an episode is open the breaker says whether its start was one too many that day. */
  lemma {:induction false} BreakerTracked(ticks: seq<Tick>, n: nat)
    requires 0 < n <= |ticks| && InOrder(ticks) && RestrictedAt(ticks, n - 1)
    ensures StateBefore(INITIAL, ticks, n).breakerTripped
            <==> |TrailingDay(ticks, EpisodeOf(ticks, n - 1) + 1)| > MAX_EPISODES_PER_24H
    ensures StateBefore(INITIAL, ticks, n).episodeStartedAt == Some(ticks[EpisodeOf(ticks, n - 1)].now)
  {
    hide StepOf, StateBefore, InOrder, TrailingDay, NowsOf, WithinDay, DeliveredSoFar, LocksAt, ShutsDownAt;
    EpisodeOpenTracked(ticks, n - 1);
    Facts(INITIAL, ticks, n - 1);
    if EpisodeStartsAt(ticks, n - 1) {
      RecentEpisodesExact(ticks, n);
    } else {
      BreakerTracked(ticks, n - 1);
    }
  }

  /** A lock instant on record means a lock emitted in the episode still open. */
  predicate LockedThisEpisode(ticks: seq<Tick>, n: nat)
    requires 0 < n <= |ticks| && RestrictedAt(ticks, n - 1)
  {
    exists l :: EpisodeOf(ticks, n - 1) <= l < n && LocksAt(INITIAL, ticks, l)
  }

  lemma LockedStays(ticks: seq<Tick>, n: nat)
    requires 1 < n <= |ticks| && RestrictedAt(ticks, n - 1) && RestrictedAt(ticks, n - 2)
    requires LockedThisEpisode(ticks, n - 1)
    ensures LockedThisEpisode(ticks, n)
  {
    hide StepOf;
    var l :| EpisodeOf(ticks, n - 2) <= l < n - 1 && LocksAt(INITIAL, ticks, l);
    assert EpisodeOf(ticks, n - 1) == EpisodeOf(ticks, n - 2);
  }

  lemma {:induction false} LockTracked(ticks: seq<Tick>, n: nat)
    requires n <= |ticks|
    ensures var state := StateBefore(INITIAL, ticks, n);
            && (state.episodeStartedAt.Some? <==> n > 0 && RestrictedAt(ticks, n - 1))
            && (state.lastLockAt.Some? ==> n > 0 && RestrictedAt(ticks, n - 1) && LockedThisEpisode(ticks, n))
  {
    hide StepOf, LocksAt;
    if n > 0 {
      LockTracked(ticks, n - 1);
      Facts(INITIAL, ticks, n - 1);
      if RestrictedAt(ticks, n - 1) {
        if LocksAt(INITIAL, ticks, n - 1) {
          assert EpisodeOf(ticks, n - 1) <= n - 1;
        } else if StateBefore(INITIAL, ticks, n).lastLockAt.Some? {
          LockedStays(ticks, n);
        }
      }
    }
  }

  /** The episode open before tick `n` has already had its shutdown. */
  predicate ShutDownThisEpisode(ticks: seq<Tick>, n: nat)
    requires 0 < n <= |ticks| && RestrictedAt(ticks, n - 1)
  {
    exists k :: EpisodeOf(ticks, n - 1) <= k < n && ShutsDownAt(INITIAL, ticks, k)
  }

  lemma {:induction false} ShutdownTracked(ticks: seq<Tick>, n: nat)
    requires n <= |ticks|
    ensures var state := StateBefore(INITIAL, ticks, n);
            && (state.episodeStartedAt.Some? <==> n > 0 && RestrictedAt(ticks, n - 1))
            && (n == 0 || !RestrictedAt(ticks, n - 1) ==> !state.shutdownIssued)
            && (n > 0 && RestrictedAt(ticks, n - 1) && ShutDownThisEpisode(ticks, n) ==> state.shutdownIssued)
  {
    hide StepOf, ShutsDownAt;
    if n > 0 {
      ShutdownTracked(ticks, n - 1);
      Facts(INITIAL, ticks, n - 1);
      if RestrictedAt(ticks, n - 1) && ShutDownThisEpisode(ticks, n) {
        var k :| EpisodeOf(ticks, n - 1) <= k < n && ShutsDownAt(INITIAL, ticks, k);
        if k < n - 1 {
          assert RestrictedAt(ticks, n - 2);
          assert EpisodeOf(ticks, n - 1) == EpisodeOf(ticks, n - 2);
          assert ShutDownThisEpisode(ticks, n - 1);
        }
      }
    }
  }

  lemma {:induction false} WarningTracked(ticks: seq<Tick>, n: nat)
    requires n <= |ticks|
    ensures var state := StateBefore(INITIAL, ticks, n);
            && (state.episodeStartedAt.Some? <==> n > 0 && RestrictedAt(ticks, n - 1))
            && (state.warningsDelivered != {} ==> n > 0 && WarnedSinceLastEpisode(ticks, n - 1))
  {
    hide StepOf, WarnedSinceLastEpisode;
    if n > 0 {
      WarningTracked(ticks, n - 1);
      Facts(INITIAL, ticks, n - 1);
      var state, next := StateBefore(INITIAL, ticks, n - 1), StateBefore(INITIAL, ticks, n);
      if next.warningsDelivered != {} {
        assert !EpisodeEndsAt(ticks, n - 1);
        WarnedStill(ticks, n - 1, state);
      }
    }
  }

  /** A delivered warning on record at a tick that ends no episode was delivered then or before. */
  lemma WarnedStill(ticks: seq<Tick>, n: nat, state: State)
    requires n < |ticks| && !EpisodeEndsAt(ticks, n)
    requires state.warningsDelivered != {} ==> n > 0 && WarnedSinceLastEpisode(ticks, n - 1)
    requires FoldWarning(state, ticks[n].previous).state.warningsDelivered != {}
    ensures WarnedSinceLastEpisode(ticks, n)
  {
    if !DeliveredAt(ticks, n) {
      var w :| 0 <= w <= n - 1 && DeliveredAt(ticks, w) && forall k :: w <= k <= n - 1 ==> !EpisodeEndsAt(ticks, k);
      assert forall k :: w <= k <= n ==> !EpisodeEndsAt(ticks, k);
    }
  }

  /**
    Every shutdown of a run comes in an episode that began at least the grace before,
    after a lock in that same episode, after a warning delivered since the previous
    episode ended, and is that episode's first.
   */
  lemma ShutdownIsSafe(ticks: seq<Tick>, j: nat)
    requires j < |ticks| && InOrder(ticks) && ShutsDownAt(INITIAL, ticks, j)
    ensures RestrictedAt(ticks, j)
    ensures var start, window := EpisodeOf(ticks, j), ticks[j].evaluation.activeWindow.value;
            && window.action.ShutDown?
            && ticks[j].now - ticks[start].now >= window.shutdownGraceS * SECOND
            && (exists l :: start <= l <= j && LocksAt(INITIAL, ticks, l))
            && WarnedSinceLastEpisode(ticks, j)
            && (forall k :: start <= k < j ==> !ShutsDownAt(INITIAL, ticks, k))
            && |TrailingDay(ticks, start + 1)| <= MAX_EPISODES_PER_24H
  {
    hide StepOf, InOrder, TrailingDay, WarnedSinceLastEpisode, LocksAt, ShutsDownAt;
    Facts(INITIAL, ticks, j);
    BreakerTracked(ticks, j + 1);
    LockTracked(ticks, j + 1);
    assert LockedThisEpisode(ticks, j + 1);
    ShutdownTracked(ticks, j);
    NoEarlierShutdown(ticks, j);
    WarningTracked(ticks, j + 1);
  }

  lemma NoEarlierShutdown(ticks: seq<Tick>, j: nat)
    requires j < |ticks| && RestrictedAt(ticks, j)
    requires j > 0 && RestrictedAt(ticks, j - 1) ==> !ShutDownThisEpisode(ticks, j)
    ensures forall k :: EpisodeOf(ticks, j) <= k < j ==> !ShutsDownAt(INITIAL, ticks, k)
  {
    hide ShutsDownAt;
    if EpisodeOf(ticks, j) < j {
      assert EpisodeOf(ticks, j) == EpisodeOf(ticks, j - 1);
    }
  }

  predicate BothShutDown(ticks: seq<Tick>, i: nat, j: nat)
    requires i < |ticks| && j < |ticks|
  {
    ShutsDownAt(INITIAL, ticks, i) && ShutsDownAt(INITIAL, ticks, j)
  }

  /** At most one shutdown per episode: between any two, an unrestricted tick. */
  lemma OneShutdownPerEpisode(ticks: seq<Tick>, i: nat, j: nat)
    requires i < j < |ticks| && InOrder(ticks) && BothShutDown(ticks, i, j)
    ensures exists k :: i < k < j && !RestrictedAt(ticks, k)
  {
    hide StepOf, InOrder, TrailingDay, WarnedSinceLastEpisode, LocksAt, ShutsDownAt;
    ShutdownIsSafe(ticks, i);
    ShutdownIsSafe(ticks, j);
    var start := EpisodeOf(ticks, j);
    assert i < start;
    assert !RestrictedAt(ticks, start - 1);
  }

  /** The episode that began at `start` reaches a shutdown. */
  predicate ReachesShutdown(ticks: seq<Tick>, start: nat) {
    exists j :: 0 <= j < |ticks| && RestrictedAt(ticks, j) && EpisodeOf(ticks, j) == start
      && ShutsDownAt(INITIAL, ticks, j)
  }

  lemma ReachedEpisodeStarts(ticks: seq<Tick>, s: nat)
    requires ReachesShutdown(ticks, s)
    ensures s < |ticks| && EpisodeStartsAt(ticks, s)
  {
    hide StepOf, ShutsDownAt, EpisodeStartsAt;
    var j :| 0 <= j < |ticks| && RestrictedAt(ticks, j) && EpisodeOf(ticks, j) == s && ShutsDownAt(INITIAL, ticks, j);
  }

  lemma ReachedWithinBreaker(ticks: seq<Tick>, s: nat)
    requires InOrder(ticks) && s < |ticks| && ReachesShutdown(ticks, s)
    ensures |TrailingDay(ticks, s + 1)| <= MAX_EPISODES_PER_24H
  {
    hide StepOf, InOrder, WarnedSinceLastEpisode, LocksAt, ShutsDownAt, TrailingDay;
    var j :| 0 <= j < |ticks| && RestrictedAt(ticks, j) && EpisodeOf(ticks, j) == s && ShutsDownAt(INITIAL, ticks, j);
    ShutdownIsSafe(ticks, j);
  }

  lemma TrailingMember(ticks: seq<Tick>, m: nat, s: nat)
    requires s <= m < |ticks| && EpisodeStartsAt(ticks, m) && EpisodeStartsAt(ticks, s)
    requires ticks[m].now - ticks[s].now < DAY
    ensures s in TrailingDay(ticks, m + 1)
  {
    hide Starts, Recent, TrailingDay, EpisodeStartsAt;
    TrailingDayStep(ticks, m + 1);
    if s < m {
      EveryStartIsListed(ticks, m, s);
      RecentMembers(ticks, Starts(ticks, m), ticks[m].now, s);
    }
  }

  /** Of the episodes that begin within any one day, at most five ever reach shutdown. */
  lemma AtMostFiveShutdownEpisodesPerDay(ticks: seq<Tick>, episodes: set<nat>)
    requires InOrder(ticks)
    requires forall s :: s in episodes ==> s < |ticks| && ReachesShutdown(ticks, s)
    requires forall s, t :: s in episodes && t in episodes ==> Abs(ticks[s].now - ticks[t].now) < DAY
    ensures |episodes| <= MAX_EPISODES_PER_24H
  {
    hide InOrder, ReachesShutdown, TrailingDay, EpisodeStartsAt;
    if episodes != {} {
      var m := Largest(episodes);
      ReachedEpisodeStarts(ticks, m);
      ReachedWithinBreaker(ticks, m);
      forall s | s in episodes ensures s in TrailingDay(ticks, m + 1) {
        ReachedEpisodeStarts(ticks, s);
        TrailingMember(ticks, m, s);
      }
      SetWithinSeq(episodes, TrailingDay(ticks, m + 1));
    }
  }

  // ---- Across process lives ------------------------------------------------------------------------

  /**
    A shutdown ends the process and with it the breaker's memory, so over any one day at most
    five episodes reach shutdown for each process life they belong to: a sixth needs a second.
   */
  lemma AtMostFiveShutdownEpisodesPerLife(lives: seq<seq<Tick>>, episodes: set<Place>)
    requires forall life :: 0 <= life < |lives| ==> InOrder(lives[life])
    requires forall e :: e in episodes ==>
               e.life < |lives| && e.tick < |lives[e.life]| && ReachesShutdown(lives[e.life], e.tick)
    requires forall e, f :: e in episodes && f in episodes ==>
               Abs(lives[e.life][e.tick].now - lives[f.life][f.tick].now) < DAY
    ensures |episodes| <= MAX_EPISODES_PER_24H * |LivesOf(episodes)|
  {
    hide InOrder, ReachesShutdown;
    forall life | life in LivesOf(episodes) ensures |InLife(episodes, life)| <= MAX_EPISODES_PER_24H {
      var starts := InLife(episodes, life);
      forall s | s in starts ensures s < |lives[life]| && ReachesShutdown(lives[life], s) {
        assert Place(life, s) in episodes;
      }
      forall s, t | s in starts && t in starts ensures Abs(lives[life][s].now - lives[life][t].now) < DAY {
        assert Place(life, s) in episodes && Place(life, t) in episodes;
      }
      AtMostFiveShutdownEpisodesPerDay(lives[life], starts);
    }
    PerLife(episodes, MAX_EPISODES_PER_24H);
  }

  const SHORT_WINDOW := Window(1, {0, 1, 2, 3, 4, 5, 6}, Some(0), Some(10), ShutDown, 0, [Warning(5, Banner)])

  /** Five minutes' warning, delivered; then the window, and power off. */
  function ShortLife(at: Instant): (life: seq<Tick>)
    ensures |life| == 2
  {
    [Tick(Evaluation(None, None, None, [DueWarning(5, Banner, 1, at + 5 * MINUTE)], []), at, None),
     Tick(Evaluation(Some(SHORT_WINDOW), None, None, [], []), at + 5 * MINUTE, Some(PreviousWarning(5, Delivered)))]
  }

  lemma ShortLifeShutsDown(at: Instant)
    ensures var life := ShortLife(at);
            && InOrder(life) && Delivers(EffectsAt(INITIAL, life, 0), 5)
            && ReachesShutdown(life, 1) && life[1].now == at + 5 * MINUTE
  {
    var life := ShortLife(at);
    hide StepOf, WithinDay, MostUrgent;
    Facts(INITIAL, life, 0);
    Facts(INITIAL, life, 1);
    OnlyEpisode(at + 5 * MINUTE);
    WarningFacts(life[0].evaluation, INITIAL, at, None, 5);
    OneUrgent(life[0].evaluation.dueWarnings[0]);
    assert StateBefore(INITIAL, life, 0) == INITIAL;
    assert ShutsDownAt(INITIAL, life, 1) && RestrictedAt(life, 1) && EpisodeOf(life, 1) == 1;
  }

  lemma OnlyEpisode(now: Instant)
    ensures |WithinDay([] + [now], now)| == 1
  {
    WithinDayLast([], now, now);
  }

  lemma OneUrgent(d: DueWarning)
    ensures MostUrgent([d]) == Some(d)
  {
    assert [d][..0] == [];
  }

  /** Six episodes reach shutdown within an hour, one to a life. */
  lemma SixLivesSixShutdowns()
    ensures var lives := seq(6, k => ShortLife(k * 10 * MINUTE));
            && (forall k :: 0 <= k < 6 ==> InOrder(lives[k]) && ReachesShutdown(lives[k], 1))
            && (forall k, l :: 0 <= k < l < 6 ==> lives[k][1].now < lives[l][0].now)
            && lives[5][1].now - lives[0][1].now < HOUR
  {
    hide ReachesShutdown, InOrder;
    var lives := seq(6, k => ShortLife(k * 10 * MINUTE));
    forall k | 0 <= k < 6 ensures InOrder(lives[k]) && ReachesShutdown(lives[k], 1) {
      ShortLifeShutsDown(k * 10 * MINUTE);
    }
  }
}
