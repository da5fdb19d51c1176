/**
  One enforcer tick: resolve the trusted clock, stop for a kill switch or an unloadable
  policy, ask the predicate, step the ladder, and act unless the version is in shadow.
 */
module Enforcer {
  import opened Basics
  import opened PolicyDocument
  import Clock = TrustedClock
  import BP = BedtimePredicate
  import BW = BedtimeWarnings
  import Ladder
  import ShadowMode

  /** The policy in force, with the zone its times are read in. */
  datatype Loaded = Loaded(zone: Resolver, document: Document)

  /** What one tick finds on disk and on the screen. */
  datatype Input = Input(
    reading: Clock.Reading,
    server: Option<Clock.Anchor>,
    killSwitch: bool,
    policy: Option<Loaded>,
    soak: Option<ShadowMode.Soak>,
    warningOutcome: Ladder.WarningOutcome)

  datatype Memory = Memory(
    clock: Clock.State,
    ladder: Ladder.State,
    pendingWarning: Option<Ladder.PreviousWarning>)

  /** The last warning among the effects, with what became of it. */
  function PendingAfter(effects: seq<Ladder.Effect>, outcome: Ladder.WarningOutcome): Option<Ladder.PreviousWarning> {
    if effects == [] then None
    else if effects[|effects| - 1].DeliverWarning? then
      Some(Ladder.PreviousWarning(effects[|effects| - 1].leadMinutes, outcome))
    else PendingAfter(effects[..|effects| - 1], outcome)
  }

  datatype Outcome = Outcome(memory: Memory, performed: seq<Ladder.Effect>)

  /** The instant a tick decides on. */
  function TrustedNow(memory: Memory, input: Input): Instant {
    Clock.Resolved(input.reading, input.server, memory.clock).now
  }

  predicate Decides(input: Input) {
    !input.killSwitch && input.policy.Some?
  }

  predicate Shadows(memory: Memory, input: Input, version: Version) {
    ShadowMode.VerdictOf(input.soak, version, TrustedNow(memory, input)).Shadowing?
  }

  function EvaluationAt(memory: Memory, input: Input): BP.Evaluation
    requires input.policy.Some?
  {
    BP.EvaluationOf(input.policy.value.zone, input.policy.value.document, TrustedNow(memory, input))
  }

  function DecisionAt(memory: Memory, input: Input): Ladder.Decision
    requires input.policy.Some?
  {
    Ladder.StepOf(EvaluationAt(memory, input), memory.ladder, TrustedNow(memory, input), memory.pendingWarning)
  }

  /** One tick as a function: the specification of `Agent.Tick`. */
  function TickOf(memory: Memory, input: Input, version: Version): Outcome {
    var clock := Clock.Resolved(input.reading, input.server, memory.clock).state;
    if !Decides(input) then Outcome(memory.(clock := clock), [])
    else
      var decision := DecisionAt(memory, input);
      if Shadows(memory, input, version) then Outcome(Memory(clock, decision.state, None), [])
      else
        Outcome(Memory(clock, decision.state, PendingAfter(decision.effects, input.warningOutcome)), decision.effects)
  }

  /** The running enforcer: its statics, and the clock state it alone persists. */
  class Agent {
    const version: Version
    var clockState: Clock.State
    var ladderState: Ladder.State
    var pendingWarning: Option<Ladder.PreviousWarning>
    var tickSeq: nat

    constructor (version: Version, persisted: Clock.State)
      ensures this.version == version && tickSeq == 0
      ensures View() == Memory(persisted, Ladder.INITIAL, None)
    {
      this.version := version;
      clockState := persisted;
      ladderState := Ladder.INITIAL;
      pendingWarning := None;
      tickSeq := 0;
    }

    function View(): Memory
      reads this
    {
      Memory(clockState, ladderState, pendingWarning)
    }

    method Tick(input: Input) returns (performed: seq<Ladder.Effect>)
      modifies this
      ensures tickSeq == old(tickSeq) + 1
      ensures Outcome(View(), performed) == TickOf(old(View()), input, version)
    {
      hide Ladder.StepOf, Clock.Resolved, BP.EvaluationOf, ShadowMode.VerdictOf, PendingAfter;
      tickSeq := tickSeq + 1;
      performed := [];

      var clock := Clock.Resolve(input.reading, input.server, clockState);
      clockState := clock.state;
      var now := clock.now;

      if input.killSwitch {
        return;
      }
      if input.policy.None? {
        return;
      }
      var evaluation := BP.Evaluate(input.policy.value.zone, input.policy.value.document, now);
      var step := Ladder.Step(evaluation, ladderState, now, pendingWarning);
      ladderState := step.state;
      pendingWarning := None;

      // Asked only now, so that shadowing runs everything but the effects.
      if ShadowMode.VerdictOf(input.soak, version, now).Shadowing? {
        return;
      }

      pendingWarning := Perform(step.effects, input.warningOutcome);
      performed := step.effects;
    }

    /** Carry the effects out in order; a warning's outcome is folded in next tick. */
    static method Perform(effects: seq<Ladder.Effect>, outcome: Ladder.WarningOutcome)
      returns (pending: Option<Ladder.PreviousWarning>)
      ensures pending == PendingAfter(effects, outcome)
    {
      pending := None;
      for i := 0 to |effects|
        invariant pending == PendingAfter(effects[..i], outcome)
      {
        assert effects[..i + 1][..i] == effects[..i];
        if effects[i].DeliverWarning? {
          pending := Some(Ladder.PreviousWarning(effects[i].leadMinutes, outcome));
        }
      }
      assert effects[..|effects|] == effects;
    }
  }

  // ---- Ticks that do not act ---------------------------------------------------------------------

  /** A kill switch, or no policy that loads: the clock is resolved as ever, and nothing else happens. */
  lemma StoppedTickOnlyReadsTheClock(memory: Memory, input: Input, version: Version)
    requires input.killSwitch || input.policy.None?
    ensures TickOf(memory, input, version).performed == []
    ensures TickOf(memory, input, version).memory.ladder == memory.ladder
    ensures TickOf(memory, input, version).memory.pendingWarning == memory.pendingWarning
    ensures TickOf(memory, input, version).memory.clock
            == Clock.Resolved(input.reading, input.server, memory.clock).state
  {
    hide Clock.Resolved;
  }

  /**
    Under the marker of an install of its own version, before the deadline, a tick performs
    nothing and leaves no warning to fold in, while clock and ladder move as with no marker.
   */
  lemma ShadowedTickPerformsNothing(memory: Memory, input: Input, version: Version, start: Instant)
    requires input.soak == Some(ShadowMode.Begin(version, start))
    requires start <= TrustedNow(memory, input) < start + 36 * HOUR
    ensures var out, bare := TickOf(memory, input, version), TickOf(memory, input.(soak := None), version);
            && out.performed == []
            && out.memory.clock == bare.memory.clock && out.memory.ladder == bare.memory.ladder
            && (!input.killSwitch && input.policy.Some? ==> out.memory.pendingWarning.None?)
  {
    hide Ladder.StepOf, Clock.Resolved, BP.EvaluationOf, ShadowMode.VerdictOf, PendingAfter;
    ShadowMode.BeginShadowsUntilDeadline(version, start, version, TrustedNow(memory, input));
  }

  /** Under another version's marker, or from the deadline on, a tick is one without a marker. */
  lemma OtherwiseTheMarkerIsIgnored(
      memory: Memory, input: Input, version: Version, installed: Version, start: Instant)
    requires input.soak == Some(ShadowMode.Begin(installed, start)) && start <= TrustedNow(memory, input)
    requires installed != version || TrustedNow(memory, input) >= start + 36 * HOUR
    ensures TickOf(memory, input, version) == TickOf(memory, input.(soak := None), version)
  {
    hide Ladder.StepOf, Clock.Resolved, BP.EvaluationOf, ShadowMode.VerdictOf, PendingAfter;
    ShadowMode.BeginShadowsUntilDeadline(installed, start, version, TrustedNow(memory, input));
    NoMarkerNoShadow(memory, input.(soak := None), version);
  }

  lemma NoMarkerNoShadow(memory: Memory, input: Input, version: Version)
    requires input.soak.None?
    ensures !Shadows(memory, input, version)
  {
    hide Clock.Resolved;
  }

  /**
    What is left to fold in next tick is the last warning performed, with what the screen made of
    it, and nothing exactly when none was.
   */
  lemma {:induction false} PendingIsTheLastWarning(effects: seq<Ladder.Effect>, outcome: Ladder.WarningOutcome)
    ensures var pending := PendingAfter(effects, outcome);
            if pending.None? then Ladder.Silent(effects)
            else exists i :: 0 <= i < |effects| && effects[i].DeliverWarning?
                             && (forall j :: i < j < |effects| ==> !effects[j].DeliverWarning?)
                             && pending == Some(Ladder.PreviousWarning(effects[i].leadMinutes, outcome))
  {
    if effects != [] && !effects[|effects| - 1].DeliverWarning? {
      var front := effects[..|effects| - 1];
      PendingIsTheLastWarning(front, outcome);
      if PendingAfter(front, outcome).Some? {
        var i :| 0 <= i < |front| && front[i].DeliverWarning?
                 && (forall j :: i < j < |front| ==> !front[j].DeliverWarning?)
                 && PendingAfter(front, outcome) == Some(Ladder.PreviousWarning(front[i].leadMinutes, outcome));
        assert effects[i].DeliverWarning?;
      }
    }
  }

  /**
    All a tick performs, under the marker of any install: the ladder's effects in their order, or
    nothing under a kill switch, without a policy or while its own version soaks. The ladder
    moves on unless the tick is stopped, and then the next tick folds in the warning performed.
   */
  lemma TickPerformsExactly(memory: Memory, input: Input, version: Version, installed: Version, start: Instant)
    requires input.soak == Some(ShadowMode.Begin(installed, start)) && start <= TrustedNow(memory, input)
    ensures var now, out := TrustedNow(memory, input), TickOf(memory, input, version);
            if input.killSwitch || input.policy.None? then out.performed == [] && out.memory.ladder == memory.ladder
            else
              var policy := input.policy.value;
              var step := Ladder.StepOf(BP.EvaluationOf(policy.zone, policy.document, now), memory.ladder, now,
                                        memory.pendingWarning);
              && out.performed == (if installed == version && now < start + 36 * HOUR then [] else step.effects)
              && out.memory.ladder == step.state
              && (out.memory.pendingWarning.None? <==> Ladder.Silent(out.performed))
              && (forall i :: 0 <= i < |out.performed| && out.performed[i].DeliverWarning? ==>
                    out.memory.pendingWarning
                    == Some(Ladder.PreviousWarning(out.performed[i].leadMinutes, input.warningOutcome)))
  {
    hide Ladder.StepOf, Clock.Resolved, BP.EvaluationOf, ShadowMode.VerdictOf, PendingAfter;
    ShadowMode.BeginShadowsUntilDeadline(installed, start, version, TrustedNow(memory, input));
    if Decides(input) {
      var e, now := EvaluationAt(memory, input), TrustedNow(memory, input);
      var performed := TickOf(memory, input, version).performed;
      PendingIsTheLastWarning(DecisionAt(memory, input).effects, input.warningOutcome);
      forall i | 0 <= i < |performed| && performed[i].DeliverWarning? ensures i == |performed| - 1 {
        Ladder.WarningIsTrue(e, memory.ladder, now, memory.pendingWarning, i);
      }
    }
  }

  /**
    All there is to whether a tick locks, under the marker of any install: no kill switch, a
    policy, no soak of its own version still running, a restriction beyond a warning, and no
    lock within the last 55 trusted seconds.
   */
  lemma TickLocksExactly(memory: Memory, input: Input, version: Version, installed: Version, start: Instant)
    requires input.soak == Some(ShadowMode.Begin(installed, start)) && start <= TrustedNow(memory, input)
    ensures var now, last := TrustedNow(memory, input), memory.ladder.lastLockAt;
            Ladder.Lock in TickOf(memory, input, version).performed
            <==> && !input.killSwitch && input.policy.Some?
                 && (installed != version || now >= start + 36 * HOUR)
                 && EvaluationAt(memory, input).IsRestricted()
                 && !EvaluationAt(memory, input).activeWindow.value.action.WarnOnly?
                 && (last.None? || now - last.value >= 55 * SECOND)
  {
    hide Ladder.StepOf, Clock.Resolved, BP.EvaluationOf, TickOf;
    TickPerformsExactly(memory, input, version, installed, start);
    if Decides(input) {
      var e, now := EvaluationAt(memory, input), TrustedNow(memory, input);
      if e.IsRestricted() {
        Ladder.InsideFacts(e, memory.ladder, now, memory.pendingWarning);
      } else {
        Ladder.OutsideFacts(e, memory.ladder, now, memory.pendingWarning);
      }
    }
  }

  // ---- End to end -------------------------------------------------------------------------------

  function MemoryBefore(start: Memory, inputs: seq<Input>, version: Version, n: nat): Memory
    requires n <= |inputs|
  {
    if n == 0 then start
    else TickOf(MemoryBefore(start, inputs, version, n - 1), inputs[n - 1], version).memory
  }

  function PerformedAt(start: Memory, inputs: seq<Input>, version: Version, n: nat): seq<Ladder.Effect>
    requires n < |inputs|
  {
    TickOf(MemoryBefore(start, inputs, version, n), inputs[n], version).performed
  }

  /** The trusted clock never runs less than the re-lock interval between these ticks. */
  const TICK_SPACING: Duration := Ladder.RELOCK_AFTER + Clock.REANCHOR_WITHIN

  predicate OneBoot(inputs: seq<Input>, boot: Clock.BootSession) {
    && (forall i :: 0 <= i < |inputs| ==> inputs[i].reading.boot == boot)
    && (forall i :: 0 < i < |inputs| ==>
          inputs[i].reading.continuous - inputs[i - 1].reading.continuous >= TICK_SPACING)
  }

  predicate ServerDecides(start: Memory, inputs: seq<Input>, version: Version, n: nat)
    requires n < |inputs|
  {
    Clock.Resolved(inputs[n].reading, inputs[n].server, MemoryBefore(start, inputs, version, n).clock).source.Server?
  }

  /** The last lock is no later than the last trusted instant, which is pinned to the last reading. */
  predicate LockBehindClock(memory: Memory, last: Clock.Reading) {
    && memory.clock.anchor.Some?
    && memory.clock.anchor.value.boot == last.boot
    && memory.clock.anchor.value.continuous == last.continuous
    && (memory.ladder.lastLockAt.Some? ==> memory.ladder.lastLockAt.value <= memory.clock.anchor.value.utc)
  }

  /** One boot, no server: the trusted clock loses at most two seconds between ticks. */
  lemma ClockKeepsUp(state: Clock.State, input: Input)
    requires state.anchor.Some? && state.anchor.value.boot == input.reading.boot
    requires input.reading.continuous - state.anchor.value.continuous >= TICK_SPACING
    requires !Clock.Resolved(input.reading, input.server, state).source.Server?
    ensures Clock.Resolved(input.reading, input.server, state).now >= state.anchor.value.utc + Ladder.RELOCK_AFTER
  {
  }

  lemma ClockPinned(state: Clock.State, input: Input)
    ensures var r := Clock.Resolved(input.reading, input.server, state);
            r.state.anchor.Some? && r.state.anchor.value.utc == r.now
            && r.state.anchor.value.boot == input.reading.boot
            && r.state.anchor.value.continuous == input.reading.continuous
  {
  }

  lemma LastLockIsOldOrNow(
      e: BP.Evaluation, state: Ladder.State, now: Instant, previous: Option<Ladder.PreviousWarning>)
    ensures var next := Ladder.StepOf(e, state, now, previous).state.lastLockAt;
            next.None? || next == Some(now) || next == state.lastLockAt
  {
    hide Ladder.StepOf;
    if e.IsRestricted() {
      Ladder.InsideFacts(e, state, now, previous);
    } else {
      Ladder.OutsideFacts(e, state, now, previous);
    }
  }

  lemma TickKeepsLockBehind(memory: Memory, input: Input, version: Version)
    requires memory.ladder.lastLockAt.Some? ==> memory.ladder.lastLockAt.value <= TrustedNow(memory, input)
    ensures LockBehindClock(TickOf(memory, input, version).memory, input.reading)
  {
    hide Ladder.StepOf, Clock.Resolved, BP.EvaluationOf;
    ClockPinned(memory.clock, input);
    if Decides(input) {
      LastLockIsOldOrNow(EvaluationAt(memory, input), memory.ladder, TrustedNow(memory, input), memory.pendingWarning);
    }
  }

  lemma {:induction false} LockStaysBehind(
      start: Memory, inputs: seq<Input>, version: Version, boot: Clock.BootSession, n: nat)
    requires start.ladder.lastLockAt.None? && OneBoot(inputs, boot)
    requires n < |inputs| && forall i :: 0 <= i <= n ==> !ServerDecides(start, inputs, version, i)
    ensures var memory := MemoryBefore(start, inputs, version, n);
            memory.ladder.lastLockAt.Some? ==>
              TrustedNow(memory, inputs[n]) - memory.ladder.lastLockAt.value >= Ladder.RELOCK_AFTER
  {
    hide TickOf, TrustedNow;
    if n > 0 {
      LockStaysBehind(start, inputs, version, boot, n - 1);
      var before, memory := MemoryBefore(start, inputs, version, n - 1), MemoryBefore(start, inputs, version, n);
      TickKeepsLockBehind(before, inputs[n - 1], version);
      assert !ServerDecides(start, inputs, version, n);
      if memory.ladder.lastLockAt.Some? {
        NowKeepsUp(memory, inputs[n - 1].reading, inputs[n]);
      }
    }
  }

  lemma NowKeepsUp(memory: Memory, last: Clock.Reading, input: Input)
    requires LockBehindClock(memory, last) && memory.ladder.lastLockAt.Some?
    requires last.boot == input.reading.boot && input.reading.continuous - last.continuous >= TICK_SPACING
    requires !Clock.Resolved(input.reading, input.server, memory.clock).source.Server?
    ensures TrustedNow(memory, input) - memory.ladder.lastLockAt.value >= Ladder.RELOCK_AFTER
  {
    hide Clock.Resolved;
    ClockKeepsUp(memory.clock, input);
  }

  /**
    End to end, whatever the wall clock reads. On one boot, with no tick decided by the
    server and ticks at least 57 seconds apart on the continuous clock, every tick at
    which the predicate restricts with an action other than `warn_only` locks, unless a
    kill switch, an unloadable policy or a shadow window stops it acting at all.
   */
  lemma EveryRestrictedTickLocks(
      start: Memory, inputs: seq<Input>, version: Version, boot: Clock.BootSession, n: nat)
    requires start.ladder == Ladder.INITIAL && OneBoot(inputs, boot)
    requires n < |inputs| && forall i :: 0 <= i <= n ==> !ServerDecides(start, inputs, version, i)
    requires Decides(inputs[n])
    requires var memory := MemoryBefore(start, inputs, version, n);
             && !Shadows(memory, inputs[n], version)
             && EvaluationAt(memory, inputs[n]).IsRestricted()
             && !EvaluationAt(memory, inputs[n]).activeWindow.value.action.WarnOnly?
    ensures Ladder.Lock in PerformedAt(start, inputs, version, n)
  {
    hide Ladder.StepOf, TrustedNow, BP.EvaluationOf, ShadowMode.VerdictOf;
    LockStaysBehind(start, inputs, version, boot, n);
    var memory := MemoryBefore(start, inputs, version, n);
    Ladder.InsideFacts(
      EvaluationAt(memory, inputs[n]), memory.ladder, TrustedNow(memory, inputs[n]), memory.pendingWarning);
  }

  // ---- What a warning tells ----------------------------------------------------------------------

  /**
    End to end: a warning put on the screen is one the policy has for a window of today or an
    earlier day, whose start, overrides allowed for, lies ahead by no more than its lead; it goes
    out on the channel the policy names and gives the minutes left till that start, rounded up.
   */
  lemma WarningIsThePolicys(memory: Memory, input: Input, version: Version, i: nat)
    requires i < |TickOf(memory, input, version).performed|
    requires TickOf(memory, input, version).performed[i].DeliverWarning?
    requires input.policy.Some? ==> Ordered(input.policy.value.zone)
    ensures input.policy.Some?
    ensures var Loaded(zone, doc) := input.policy.value;
            var effect, now := TickOf(memory, input, version).performed[i], TrustedNow(memory, input);
            exists w, day, warning ::
              && w in doc.windows && warning in w.warnings && day <= zone.dayOf(now)
              && BW.IsDue(zone, doc, now, w, day, warning)
              && effect.windowId == w.id && effect.leadMinutes == warning.leadMinutes
              && effect.channel == warning.channel
              && var start := BP.RelaxedSpan(zone, doc, now, w, day).value.from;
                 (effect.minutesLeft - 1) * MINUTE < start - now <= effect.minutesLeft * MINUTE
  {
    hide Ladder.StepOf, TrustedNow, BP.EvaluationOf, Clock.Resolved, ShadowMode.VerdictOf, PendingAfter, Ordered,
         BP.RelaxedSpan;
    var Loaded(zone, doc) := input.policy.value;
    var e, now, effect := EvaluationAt(memory, input), TrustedNow(memory, input),
                          TickOf(memory, input, version).performed[i];
    Ladder.WarningIsTrue(e, memory.ladder, now, memory.pendingWarning, i);
    var d: BP.DueWarning :| d in e.dueWarnings && effect.leadMinutes == d.leadMinutes && effect.channel == d.channel
      && effect.windowId == d.windowId
      && (now < d.boundaryAt ==>
            (effect.minutesLeft - 1) * MINUTE < d.boundaryAt - now <= effect.minutesLeft * MINUTE);
    BW.WarningsSeenExactly(zone, doc, now, d);
    var w, day :| w in doc.windows && day <= zone.dayOf(now) && BW.DueAs(zone, doc, now, w, day, d);
    var warning :| warning in w.warnings && BW.IsDue(zone, doc, now, w, day, warning)
      && d == BP.DueWarning(warning.leadMinutes, warning.channel, w.id,
                            BP.RelaxedSpan(zone, doc, now, w, day).value.from);
  }

  // ---- Corrections by the server ----------------------------------------------------------------

  /** The tick acts, and finds the Mac restricted beyond a warning. */
  predicate MustLock(memory: Memory, input: Input, version: Version) {
    && Decides(input) && !Shadows(memory, input, version)
    && EvaluationAt(memory, input).IsRestricted()
    && !EvaluationAt(memory, input).activeWindow.value.action.WarnOnly?
  }

  /**
    Such a tick locks exactly when none was issued yet or 55 trusted seconds have passed
    since. Trusted time that steps back across the last lock therefore suppresses it.
   */
  lemma LocksExactly(memory: Memory, input: Input, version: Version)
    requires MustLock(memory, input, version)
    ensures var out, last := TickOf(memory, input, version), memory.ladder.lastLockAt;
            && (Ladder.Lock in out.performed
                <==> last.None? || TrustedNow(memory, input) - last.value >= Ladder.RELOCK_AFTER)
            && (Ladder.Lock in out.performed ==> out.memory.ladder.lastLockAt == Some(TrustedNow(memory, input)))
  {
    hide Ladder.StepOf, TrustedNow, BP.EvaluationOf, ShadowMode.VerdictOf;
    Ladder.InsideFacts(
      EvaluationAt(memory, input), memory.ladder, TrustedNow(memory, input), memory.pendingWarning);
  }

  /**
    Two ticks that must lock, the first from a fresh ladder: it locks, and the second, decided
    by the server, does not lock exactly when the server's time is less than 55 seconds on.
   */
  lemma CorrectionSuppressesExactly(start: Memory, inputs: seq<Input>, version: Version)
    requires |inputs| == 2 && start.ladder == Ladder.INITIAL
    requires MustLock(start, inputs[0], version)
    requires MustLock(MemoryBefore(start, inputs, version, 1), inputs[1], version)
    requires ServerDecides(start, inputs, version, 1)
    ensures Ladder.Lock in PerformedAt(start, inputs, version, 0)
    ensures var memory := MemoryBefore(start, inputs, version, 1);
            Ladder.Lock !in PerformedAt(start, inputs, version, 1)
            <==> inputs[1].server.value.Project(inputs[1].reading).value - TrustedNow(start, inputs[0])
                 < Ladder.RELOCK_AFTER
  {
    hide TickOf, MustLock;
    var memory := MemoryBefore(start, inputs, version, 1);
    assert MemoryBefore(start, inputs, version, 0) == start;
    LocksExactly(start, inputs[0], version);
    LocksExactly(memory, inputs[1], version);
    ServerDecidesItsTime(memory.clock, inputs[1]);
  }

  lemma ServerDecidesItsTime(state: Clock.State, input: Input)
    requires Clock.Resolved(input.reading, input.server, state).source.Server?
    ensures input.server.Some? && input.server.value.Project(input.reading).Some?
    ensures Clock.Resolved(input.reading, input.server, state).now == input.server.value.Project(input.reading).value
  {
  }

  const ALL_DAY := Window(1, {0, 1, 2, 3, 4, 5, 6}, Some(0), Some(1439), LockOnly, 300, [])
  const ALWAYS := Loaded(BW.UTC, Document([ALL_DAY], []))

  lemma AlwaysRestricts(now: Instant)
    requires 0 <= now < 1439 * MINUTE
    ensures var e := BP.EvaluationOf(ALWAYS.zone, ALWAYS.document, now);
            e.IsRestricted() && e.activeWindow.value == ALL_DAY
  {
    hide BP.EvaluationOf;
    BW.UtcIsOrdered();
    BP.EvaluationMeaning(BW.UTC, ALWAYS.document, now);
    assert BW.UTC.dayOf(BW.UTC.instant(0, 0, RestrictedFrom)) == 0;
    assert BP.ResolveSpan(BW.UTC, ALL_DAY, 0) == Some(BP.Span(0, 1439 * MINUTE, []));
    assert ALL_DAY in ALWAYS.document.windows && BP.Restricts(BW.UTC, ALWAYS.document, now, ALL_DAY, 0);
  }

  /**
    Such a run: a fresh agent whose wall reads noon locks, and a minute later a server that
    says eleven corrects it; the Mac is restricted by either clock, and no lock comes.
   */
  lemma BackwardCorrectionSuppressesLock(version: Version, boot: Clock.BootSession)
    ensures var start := Memory(Clock.FRESH, Ladder.INITIAL, None);
            var noon := 12 * HOUR;
            var first := Input(Clock.Reading(noon, 0, boot), None, false, Some(ALWAYS), None, Ladder.Delivered);
            var server := Clock.Anchor(noon - HOUR, 0, boot, true);
            var second := Input(Clock.Reading(noon + MINUTE, MINUTE, boot), Some(server), false, Some(ALWAYS), None,
                                Ladder.Delivered);
            var inputs := [first, second];
            && ServerDecides(start, inputs, version, 1)
            && MustLock(start, first, version) && MustLock(MemoryBefore(start, inputs, version, 1), second, version)
            && Ladder.Lock in PerformedAt(start, inputs, version, 0)
            && Ladder.Lock !in PerformedAt(start, inputs, version, 1)
  {
    hide Ladder.StepOf, BP.EvaluationOf;
    var start := Memory(Clock.FRESH, Ladder.INITIAL, None);
    var noon := 12 * HOUR;
    var first := Input(Clock.Reading(noon, 0, boot), None, false, Some(ALWAYS), None, Ladder.Delivered);
    var server := Clock.Anchor(noon - HOUR, 0, boot, true);
    var second :=
      Input(Clock.Reading(noon + MINUTE, MINUTE, boot), Some(server), false, Some(ALWAYS), None, Ladder.Delivered);
    var inputs := [first, second];
    assert MemoryBefore(start, inputs, version, 0) == start;
    AlwaysRestricts(noon);
    AlwaysRestricts(noon - HOUR + MINUTE);
    CorrectionSuppressesExactly(start, inputs, version);
  }

  // ---- Restarts -------------------------------------------------------------------------------------

  /** Every tick so far that decided anything found the Mac restricted. */
  predicate InsideThroughout(start: Memory, inputs: seq<Input>, version: Version, n: nat)
    requires n <= |inputs|
  {
    forall i :: 0 <= i < n && Decides(inputs[i]) ==>
      EvaluationAt(MemoryBefore(start, inputs, version, i), inputs[i]).IsRestricted()
  }

  predicate Unwarned(memory: Memory) {
    memory.ladder.warningsDelivered == {} && memory.pendingWarning.None?
  }

  lemma StaysUnwarned(memory: Memory, input: Input, version: Version)
    requires Unwarned(memory) && (Decides(input) ==> EvaluationAt(memory, input).IsRestricted())
    ensures Unwarned(TickOf(memory, input, version).memory)
    ensures Ladder.PowerOff !in TickOf(memory, input, version).performed
  {
    hide Ladder.StepOf, TrustedNow, BP.EvaluationOf, Clock.Resolved, ShadowMode.VerdictOf, PendingAfter;
    if Decides(input) {
      var e, now := EvaluationAt(memory, input), TrustedNow(memory, input);
      Ladder.InsideFacts(e, memory.ladder, now, None);
      Ladder.EscalationFacts(e, memory.ladder, now, None);
      Ladder.NoWarningInside(e, memory.ladder, now, None);
      PendingIsTheLastWarning(DecisionAt(memory, input).effects, input.warningOutcome);
    }
  }

  lemma {:induction false} UnwarnedInside(start: Memory, inputs: seq<Input>, version: Version, n: nat)
    requires n <= |inputs| && Unwarned(start) && InsideThroughout(start, inputs, version, n)
    ensures Unwarned(MemoryBefore(start, inputs, version, n))
  {
    hide TickOf, EvaluationAt, Unwarned;
    if n > 0 {
      UnwarnedInside(start, inputs, version, n - 1);
      StaysUnwarned(MemoryBefore(start, inputs, version, n - 1), inputs[n - 1], version);
    }
  }

  /**
    A process that starts inside a window locks on its first such tick, and shuts nothing
    down until the window has ended: warnings a former process delivered are forgotten, and
    none is delivered inside.
   */
  lemma RestartInsideOnlyLocks(start: Memory, inputs: seq<Input>, version: Version, n: nat)
    requires start.ladder == Ladder.INITIAL && start.pendingWarning.None?
    requires n < |inputs| && InsideThroughout(start, inputs, version, n + 1)
    ensures Ladder.PowerOff !in PerformedAt(start, inputs, version, n)
    ensures MustLock(start, inputs[0], version) ==> Ladder.Lock in PerformedAt(start, inputs, version, 0)
  {
    hide TickOf, EvaluationAt, MustLock;
    UnwarnedInside(start, inputs, version, n);
    StaysUnwarned(MemoryBefore(start, inputs, version, n), inputs[n], version);
    if MustLock(start, inputs[0], version) {
      LocksExactly(start, inputs[0], version);
    }
  }

  // ---- No shutdown unwarned ------------------------------------------------------------------------

  /** The tick puts a warning on the screen. */
  predicate WarnsAt(start: Memory, inputs: seq<Input>, version: Version, n: nat)
    requires n < |inputs|
  {
    && inputs[n].warningOutcome.Delivered?
    && exists i :: 0 <= i < |PerformedAt(start, inputs, version, n)|
                   && PerformedAt(start, inputs, version, n)[i].DeliverWarning?
  }

  /** The tick finds the Mac free again after an episode. */
  predicate EndsEpisodeAt(start: Memory, inputs: seq<Input>, version: Version, n: nat)
    requires n < |inputs|
  {
    var memory := MemoryBefore(start, inputs, version, n);
    Decides(inputs[n]) && memory.ladder.episodeStartedAt.Some? && !EvaluationAt(memory, inputs[n]).IsRestricted()
  }

  /** A warning was delivered at tick `w`, and no episode has ended since. */
  predicate StillWarned(start: Memory, inputs: seq<Input>, version: Version, w: nat, n: nat)
    requires w < n <= |inputs|
  {
    WarnsAt(start, inputs, version, w) && forall k :: w < k < n ==> !EndsEpisodeAt(start, inputs, version, k)
  }

  predicate SomeStillWarned(start: Memory, inputs: seq<Input>, version: Version, n: nat)
    requires n <= |inputs|
  {
    exists w: nat :: w < n && StillWarned(start, inputs, version, w, n)
  }

  /** What memory has of delivered warnings: on record, or to be folded in. */
  predicate RemembersWarning(memory: Memory) {
    || memory.ladder.warningsDelivered != {}
    || (memory.pendingWarning.Some? && memory.pendingWarning.value.outcome.Delivered?)
  }

  /** Memory has a delivered warning exactly when there is such a tick. */
  predicate WarningsEarned(start: Memory, inputs: seq<Input>, version: Version, n: nat)
    requires n <= |inputs|
  {
    RemembersWarning(MemoryBefore(start, inputs, version, n)) <==> SomeStillWarned(start, inputs, version, n)
  }

  predicate Shows(performed: seq<Ladder.Effect>) {
    exists i :: 0 <= i < |performed| && performed[i].DeliverWarning?
  }

  /** After a deciding tick memory has one if it did and no episode ended, or if the tick put one on the screen. */
  lemma RememberedWarnings(memory: Memory, input: Input, version: Version)
    requires Decides(input)
    ensures var out, e := TickOf(memory, input, version), EvaluationAt(memory, input);
            && (out.memory.ladder.warningsDelivered != {} <==>
                  RemembersWarning(memory) && (e.IsRestricted() || memory.ladder.episodeStartedAt.None?))
            && (out.memory.pendingWarning.Some? <==> Shows(out.performed))
            && (out.memory.pendingWarning.Some? ==> out.memory.pendingWarning.value.outcome == input.warningOutcome)
  {
    hide Ladder.StepOf, TrustedNow, BP.EvaluationOf, Clock.Resolved, ShadowMode.VerdictOf, PendingAfter;
    var e, now := EvaluationAt(memory, input), TrustedNow(memory, input);
    if e.IsRestricted() {
      Ladder.InsideFacts(e, memory.ladder, now, memory.pendingWarning);
    } else {
      Ladder.OutsideFacts(e, memory.ladder, now, memory.pendingWarning);
    }
    PendingIsTheLastWarning(DecisionAt(memory, input).effects, input.warningOutcome);
  }

  lemma StillWarnedNext(start: Memory, inputs: seq<Input>, version: Version, n: nat)
    requires n < |inputs|
    ensures SomeStillWarned(start, inputs, version, n + 1)
            <==> WarnsAt(start, inputs, version, n)
                 || (SomeStillWarned(start, inputs, version, n) && !EndsEpisodeAt(start, inputs, version, n))
  {
    hide WarnsAt, EndsEpisodeAt;
    if SomeStillWarned(start, inputs, version, n + 1) {
      var w: nat :| w < n + 1 && StillWarned(start, inputs, version, w, n + 1);
      if w < n {
        assert StillWarned(start, inputs, version, w, n);
      }
    }
    if WarnsAt(start, inputs, version, n) {
      assert StillWarned(start, inputs, version, n, n + 1);
    } else if SomeStillWarned(start, inputs, version, n) && !EndsEpisodeAt(start, inputs, version, n) {
      var w: nat :| w < n && StillWarned(start, inputs, version, w, n);
      assert StillWarned(start, inputs, version, w, n + 1);
    }
  }

  lemma WarningsStayEarned(start: Memory, inputs: seq<Input>, version: Version, n: nat)
    requires n < |inputs| && WarningsEarned(start, inputs, version, n)
    ensures WarningsEarned(start, inputs, version, n + 1)
  {
    hide TickOf, EvaluationAt, SomeStillWarned;
    var memory := MemoryBefore(start, inputs, version, n);
    assert PerformedAt(start, inputs, version, n) == TickOf(memory, inputs[n], version).performed;
    StillWarnedNext(start, inputs, version, n);
    if Decides(inputs[n]) {
      RememberedWarnings(memory, inputs[n], version);
    } else {
      StoppedTickOnlyReadsTheClock(memory, inputs[n], version);
    }
  }

  lemma {:induction false} WarningsAreEarned(start: Memory, inputs: seq<Input>, version: Version, n: nat)
    requires start.ladder == Ladder.INITIAL && start.pendingWarning.None? && n <= |inputs|
    ensures WarningsEarned(start, inputs, version, n)
  {
    hide TickOf;
    if n > 0 {
      hide WarningsEarned;
      WarningsAreEarned(start, inputs, version, n - 1);
      WarningsStayEarned(start, inputs, version, n - 1);
    }
  }

  /**
    End to end: a process shuts the Mac down exactly when the tick acts in a window whose action
    is that, no shutdown has been issued in the episode, the breaker is not tripped, the grace has
    passed since it began, and a warning that this process put on the screen itself was followed
    by no end of an episode.
   */
  lemma ShutsDownExactly(start: Memory, inputs: seq<Input>, version: Version, n: nat)
    requires start.ladder == Ladder.INITIAL && start.pendingWarning.None? && n < |inputs|
    ensures Ladder.PowerOff in PerformedAt(start, inputs, version, n)
            <==> var memory, input := MemoryBefore(start, inputs, version, n), inputs[n];
                 var next := MemoryBefore(start, inputs, version, n + 1).ladder;
                 && MustLock(memory, input, version)
                 && EvaluationAt(memory, input).activeWindow.value.action.ShutDown?
                 && !memory.ladder.shutdownIssued && !next.breakerTripped
                 && next.episodeStartedAt.Some?
                 && TrustedNow(memory, input) - next.episodeStartedAt.value
                    >= EvaluationAt(memory, input).activeWindow.value.shutdownGraceS * SECOND
                 && SomeStillWarned(start, inputs, version, n)
  {
    hide Ladder.StepOf, TrustedNow, BP.EvaluationOf, Clock.Resolved, ShadowMode.VerdictOf, PendingAfter,
         SomeStillWarned;
    var memory, input := MemoryBefore(start, inputs, version, n), inputs[n];
    WarningsAreEarned(start, inputs, version, n);
    if Decides(input) {
      var e, now := EvaluationAt(memory, input), TrustedNow(memory, input);
      RememberedWarnings(memory, input, version);
      if e.IsRestricted() {
        Ladder.EscalationFacts(e, memory.ladder, now, memory.pendingWarning);
      } else {
        Ladder.OutsideFacts(e, memory.ladder, now, memory.pendingWarning);
      }
    }
  }

  /** So every shutdown a process performs was warned of by itself, with no episode ended in between. */
  lemma ShutdownWasWarnedOf(start: Memory, inputs: seq<Input>, version: Version, n: nat)
    requires start.ladder == Ladder.INITIAL && start.pendingWarning.None?
    requires n < |inputs| && Ladder.PowerOff in PerformedAt(start, inputs, version, n)
    ensures exists w: nat :: w < n && StillWarned(start, inputs, version, w, n)
    ensures !EndsEpisodeAt(start, inputs, version, n)
  {
    hide TickOf, EvaluationAt;
    ShutsDownExactly(start, inputs, version, n);
  }

  // ---- A soak over a run ---------------------------------------------------------------------------

  /** Every tick finds the marker of an install of `installed` at `at`, and none comes before it. */
  ghost predicate MarkedRun(start: Memory, inputs: seq<Input>, version: Version, installed: Version, at: Instant) {
    forall i :: 0 <= i < |inputs| ==>
      && inputs[i].soak == Some(ShadowMode.Begin(installed, at))
      && at <= TrustedNow(MemoryBefore(start, inputs, version, i), inputs[i])
  }

  predicate SoaksAt(
      start: Memory, inputs: seq<Input>, version: Version, installed: Version, at: Instant, n: nat)
    requires n < |inputs|
  {
    installed == version && TrustedNow(MemoryBefore(start, inputs, version, n), inputs[n]) < at + 36 * HOUR
  }

  /** The same inputs with no marker, every warning of a soaking tick finding nobody at the screen. */
  ghost predicate Unmarked(
      start: Memory, inputs: seq<Input>, bare: seq<Input>, version: Version, installed: Version, at: Instant)
  {
    && |bare| == |inputs|
    && forall i :: 0 <= i < |inputs| ==>
         bare[i] == inputs[i].(
           soak := None,
           warningOutcome := if SoaksAt(start, inputs, version, installed, at, i) then Ladder.NoConsoleUser
                             else inputs[i].warningOutcome)
  }

  /** Nothing pending folds in like a warning nobody was there to see. */
  predicate SameFold(a: Option<Ladder.PreviousWarning>, b: Option<Ladder.PreviousWarning>) {
    a == b || (a.None? && b.Some? && b.value.outcome.NoConsoleUser?)
  }

  predicate SameCourse(m: Memory, bare: Memory) {
    m.clock == bare.clock && m.ladder == bare.ladder && SameFold(m.pendingWarning, bare.pendingWarning)
  }

  lemma SameFoldSameStep(
      e: BP.Evaluation, state: Ladder.State, now: Instant,
      a: Option<Ladder.PreviousWarning>, b: Option<Ladder.PreviousWarning>)
    requires SameFold(a, b)
    ensures Ladder.StepOf(e, state, now, a) == Ladder.StepOf(e, state, now, b)
  {
    hide Ladder.CloseEpisode, Ladder.OpenEpisode, Ladder.Warn, Ladder.Enforce;
    assert Ladder.FoldWarning(state, a) == Ladder.FoldWarning(state, b);
  }

  /** One tick of both runs. */
  lemma SameCourseStep(
      m: Memory, input: Input, bareM: Memory, bare: Input, version: Version, installed: Version, at: Instant)
    requires SameCourse(m, bareM)
    requires input.soak == Some(ShadowMode.Begin(installed, at)) && at <= TrustedNow(m, input)
    requires bare == input.(
                       soak := None,
                       warningOutcome := if installed == version && TrustedNow(m, input) < at + 36 * HOUR
                                         then Ladder.NoConsoleUser else input.warningOutcome)
    ensures TrustedNow(bareM, bare) == TrustedNow(m, input)
    ensures SameCourse(TickOf(m, input, version).memory, TickOf(bareM, bare, version).memory)
    ensures TickOf(m, input, version).performed
            == if installed == version && TrustedNow(m, input) < at + 36 * HOUR then []
               else TickOf(bareM, bare, version).performed
  {
    hide Ladder.StepOf, Clock.Resolved, BP.EvaluationOf, ShadowMode.VerdictOf, PendingAfter;
    var now := TrustedNow(m, input);
    ShadowMode.BeginShadowsUntilDeadline(installed, at, version, now);
    NoMarkerNoShadow(bareM, bare, version);
    if Decides(input) {
      SameFoldSameStep(EvaluationAt(m, input), m.ladder, now, m.pendingWarning, bareM.pendingWarning);
      PendingIsTheLastWarning(DecisionAt(bareM, bare).effects, bare.warningOutcome);
    }
  }

  /**
    A soak exercises the program that will run: clock and ladder go through exactly the states
    of the same run with no marker in which nobody saw the soak's warnings.
   */
  lemma {:induction false} SoakDecidesAsEnforcing(
      start: Memory, inputs: seq<Input>, bare: seq<Input>, version: Version, installed: Version, at: Instant, n: nat)
    requires MarkedRun(start, inputs, version, installed, at)
    requires Unmarked(start, inputs, bare, version, installed, at) && n <= |inputs|
    ensures SameCourse(MemoryBefore(start, inputs, version, n), MemoryBefore(start, bare, version, n))
  {
    hide TickOf, TrustedNow, SameCourse, Clock.Resolved;
    if n > 0 {
      SoakDecidesAsEnforcing(start, inputs, bare, version, installed, at, n - 1);
      SameCourseStep(MemoryBefore(start, inputs, version, n - 1), inputs[n - 1],
                     MemoryBefore(start, bare, version, n - 1), bare[n - 1], version, installed, at);
    } else {
      assert SameCourse(start, start) by { SameCourseIsReflexive(start); }
    }
  }

  lemma SameCourseIsReflexive(m: Memory)
    ensures SameCourse(m, m)
  {
  }

  /**
    And every tick of it before the deadline performs nothing, every later one all that the
    unmarked run performs there, at the same trusted instant.
   */
  lemma SoakPerformsNothingThenEverything(
      start: Memory, inputs: seq<Input>, bare: seq<Input>, version: Version, installed: Version, at: Instant, n: nat)
    requires MarkedRun(start, inputs, version, installed, at)
    requires Unmarked(start, inputs, bare, version, installed, at) && n < |inputs|
    ensures var now := TrustedNow(MemoryBefore(start, inputs, version, n), inputs[n]);
            && now == TrustedNow(MemoryBefore(start, bare, version, n), bare[n])
            && PerformedAt(start, inputs, version, n)
               == if installed == version && now < at + 36 * HOUR then [] else PerformedAt(start, bare, version, n)
  {
    hide TickOf, TrustedNow, SameCourse, Clock.Resolved;
    SoakDecidesAsEnforcing(start, inputs, bare, version, installed, at, n);
    SameCourseStep(MemoryBefore(start, inputs, version, n), inputs[n],
                   MemoryBefore(start, bare, version, n), bare[n], version, installed, at);
  }
}
