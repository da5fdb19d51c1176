/**
  The agent's trusted clock: three witnesses (the wall clock, the last server
  time carried forward on the continuous clock, and the agent's own last trusted
  instant carried forward), and the rule that decides which one to enforce on.
 */
module TrustedClock {
  import opened Basics

  const TOLERANCE: Duration := 30 * SECOND
  const REANCHOR_WITHIN: Duration := 2 * SECOND

  type BootSession = string

  /** The three clocks at one moment. `continuous` counts from the boot it names. */
  datatype Reading = Reading(wall: Instant, continuous: Duration, boot: BootSession)

  /** A trusted instant pinned to a point on one boot's continuous clock. */
  datatype Anchor = Anchor(utc: Instant, continuous: Duration, boot: BootSession, confirmed: bool) {
    function Project(reading: Reading): Option<Instant> {
      if boot == reading.boot then Some(utc + (reading.continuous - continuous)) else None
    }
  }

  /** What survives a restart of the enforcer, or of the Mac. */
  datatype State = State(
    anchor: Option<Anchor>,
    highWater: Option<Instant>,
    offset: Duration,
    reportedOffset: Duration,
    serverOutvoted: bool)

  const FRESH := State(None, None, 0, 0, false)

  datatype Source = Server | Own | Wall

  datatype OffsetStep = OffsetStep(from: Duration, to: Duration)

  datatype Resolution = Resolution(
    now: Instant,
    source: Source,
    offset: Duration,
    step: Option<OffsetStep>,
    serverOutvoted: bool,
    serverOutvotedStarted: bool,
    serverCorroborated: bool,
    state: State)

  /** The server's stamp, pinned to the moment its reply landed. */
  function ServerAnchor(serverTime: Instant, sent: Duration, received: Duration, boot: BootSession): Anchor {
    Anchor(serverTime + Max(0, received - sent) / 2, received, boot, true)
  }

  /** The agent's own reckoning, and whether the server ever stood behind it. */
  datatype Reckoning = Reckoning(at: Instant, confirmed: bool)

  function OwnReckoning(reading: Reading, state: State): Option<Reckoning> {
    if state.anchor.Some? && state.anchor.value.boot == reading.boot then
      Some(Reckoning(state.anchor.value.utc + (reading.continuous - state.anchor.value.continuous),
                     state.anchor.value.confirmed))
    else if state.anchor.Some? || state.highWater.Some? then
      var carried := reading.wall - state.offset;
      var held := if state.highWater.Some? then Max(carried, state.highWater.value) else carried;
      Some(Reckoning(held, state.anchor.Some? && state.anchor.value.confirmed))
    else
      None
  }

  predicate Agree(a: Instant, b: Instant) {
    Abs(a - b) <= TOLERANCE
  }

  /** Close to the wall, take the wall; otherwise keep the reckoning. */
  function NearWall(own: Instant, wall: Instant): Instant {
    if Abs(own - wall) <= REANCHOR_WITHIN then wall else own
  }

  datatype Ballot = Ballot(now: Instant, source: Source, outvoted: bool)

  function Vote(wall: Instant, server: Option<Instant>, own: Option<Reckoning>): Ballot {
    if server.Some? then
      if (own.Some? && Agree(server.value, own.value.at)) || Agree(server.value, wall) then
        Ballot(server.value, Server, false)
      else if own.Some? && own.value.confirmed && Agree(own.value.at, wall) then
        Ballot(NearWall(own.value.at, wall), Own, true)
      else
        Ballot(server.value, Server, false)
    else if own.Some? then
      Ballot(NearWall(own.value.at, wall),
             if Abs(own.value.at - wall) <= REANCHOR_WITHIN then Wall else Own, false)
    else
      Ballot(wall, Wall, false)
  }

  /** The resolution as a function of its three inputs: the specification of `Resolve`. */
  function Resolved(reading: Reading, server: Option<Anchor>, state: State): Resolution {
    var serverNow := if server.Some? then server.value.Project(reading) else None;
    var own := OwnReckoning(reading, state);
    var ballot := Vote(reading.wall, serverNow, own);
    var offset := reading.wall - ballot.now;
    var stepped := Abs(offset - state.reportedOffset) > TOLERANCE;
    var confirmed := ballot.source.Server? || (own.Some? && own.value.confirmed);
    var highWater :=
      if ballot.source.Server? || state.highWater.None? then ballot.now
      else Max(state.highWater.value, ballot.now);
    Resolution(
      ballot.now,
      ballot.source,
      offset,
      if stepped then Some(OffsetStep(state.reportedOffset, offset)) else None,
      ballot.outvoted,
      ballot.outvoted && !state.serverOutvoted,
      own.Some? && own.value.confirmed && serverNow.Some? && Agree(serverNow.value, own.value.at),
      State(Some(Anchor(ballot.now, reading.continuous, reading.boot, confirmed)),
            Some(highWater),
            offset,
            if stepped then offset else state.reportedOffset,
            ballot.outvoted))
  }

  /** The three witnesses' vote, case by case. */
  method CastBallot(wall: Instant, serverNow: Option<Instant>, own: Option<Reckoning>) returns (ballot: Ballot)
    ensures ballot == Vote(wall, serverNow, own)
  {
    var ownConfirmed := own.Some? && own.value.confirmed;
    var now: Instant := wall;
    var source := Wall;
    var outvoted := false;
    if serverNow.Some?
       && ((own.Some? && Agree(serverNow.value, own.value.at)) || Agree(serverNow.value, wall)) {
      now, source := serverNow.value, Server;
    } else if ownConfirmed && Agree(own.value.at, wall) && serverNow.Some? {
      now := if Abs(own.value.at - wall) <= REANCHOR_WITHIN then wall else own.value.at;
      source, outvoted := Own, true;
    } else if serverNow.Some? {
      now, source := serverNow.value, Server;
    } else if own.Some? {
      if Abs(own.value.at - wall) <= REANCHOR_WITHIN {
        now, source := wall, Wall;
      } else {
        now, source := own.value.at, Own;
      }
    }

    ballot := Ballot(now, source, outvoted);
  }

  /** The tick's clock decision, in the order the agent takes it. */
  method Resolve(reading: Reading, server: Option<Anchor>, incoming: State) returns (r: Resolution)
    ensures r == Resolved(reading, server, incoming)
  {
    var wall := reading.wall;
    var serverNow := if server.Some? then server.value.Project(reading) else None;

    var own := OwnReckoning(reading, incoming);
    var ownConfirmed := own.Some? && own.value.confirmed;
    var corroborated := ownConfirmed && serverNow.Some? && Agree(serverNow.value, own.value.at);

    var ballot := CastBallot(wall, serverNow, own);
    var now, source, outvoted := ballot.now, ballot.source, ballot.outvoted;

    // What the next tick starts from.
    var state := incoming;
    if source.Server? {
      state := state.(anchor := Some(Anchor(now, reading.continuous, reading.boot, true)));
      state := state.(highWater := Some(now));
    } else {
      state := state.(anchor := Some(Anchor(now, reading.continuous, reading.boot, ownConfirmed)));
      var mark := if state.highWater.Some? then Max(state.highWater.value, now) else now;
      state := state.(highWater := Some(mark));
    }

    var offset := wall - now;
    state := state.(offset := offset);
    var step: Option<OffsetStep> := None;
    if Abs(offset - state.reportedOffset) > TOLERANCE {
      step := Some(OffsetStep(state.reportedOffset, offset));
      state := state.(reportedOffset := offset);
    }
    var outvotedStarted := outvoted && !state.serverOutvoted;
    state := state.(serverOutvoted := outvoted);
    r := Resolution(now, source, offset, step, outvoted, outvotedStarted, corroborated, state);
  }

  /**
    Two witnesses must agree. With a server reading and a reckoning the server once
    confirmed, whenever any two of the three witnesses agree the chosen instant agrees
    with at least two of them; and the server loses exactly when the other two agree
    with each other and neither agrees with it.
   */
  lemma TwoOfThree(reading: Reading, server: Anchor, state: State)
    requires server.boot == reading.boot
    requires OwnReckoning(reading, state).Some? && OwnReckoning(reading, state).value.confirmed
    ensures var wall, own := reading.wall, OwnReckoning(reading, state).value.at;
            var remote := server.Project(reading).value;
            var r := Resolved(reading, Some(server), state);
            && (Agree(wall, own) || Agree(wall, remote) || Agree(own, remote) ==>
                  || (Agree(r.now, wall) && Agree(r.now, own))
                  || (Agree(r.now, wall) && Agree(r.now, remote))
                  || (Agree(r.now, own) && Agree(r.now, remote)))
            && (r.serverOutvoted <==> Agree(own, wall) && !Agree(remote, own) && !Agree(remote, wall))
            && (!r.serverOutvoted ==> r.now == remote)
  {
  }

  // ---- Runs -----------------------------------------------------------------------------

  /** One tick's inputs: what the clocks read and the server anchor on disk. */
  datatype Input = Input(reading: Reading, server: Option<Anchor>)

  /** The persisted state before tick `n` of a run. */
  function StateBefore(start: State, inputs: seq<Input>, n: nat): State
    requires n <= |inputs|
  {
    if n == 0 then start
    else Resolved(inputs[n - 1].reading, inputs[n - 1].server, StateBefore(start, inputs, n - 1)).state
  }

  /** What tick `n` of a run resolves to. */
  function ResolutionAt(start: State, inputs: seq<Input>, n: nat): Resolution
    requires n < |inputs|
  {
    Resolved(inputs[n].reading, inputs[n].server, StateBefore(start, inputs, n))
  }

  /**
    A step is reported when the wall's error has moved by more than the tolerance
    since the last report, so an unreported error never exceeds it; and an outvoted
    server is announced on the first outvoted tick only.
   */
  lemma {:induction false} ErrorsReportedOnce(start: State, inputs: seq<Input>, i: nat, j: nat)
    requires i < j < |inputs|
    requires forall k :: i < k < j ==> ResolutionAt(start, inputs, k).step.None?
    ensures var r, s := ResolutionAt(start, inputs, i), ResolutionAt(start, inputs, j);
            && Abs(r.offset - r.state.reportedOffset) <= TOLERANCE
            && (r.step.Some? && s.step.Some? ==>
                  s.step.value.from == r.step.value.to && Abs(s.step.value.to - s.step.value.from) > TOLERANCE)
            && (i + 1 == j && r.serverOutvoted ==> !s.serverOutvotedStarted)
    ensures StateBefore(start, inputs, j).reportedOffset
            == ResolutionAt(start, inputs, i).state.reportedOffset
  {
    hide Vote, OwnReckoning;
    if i + 1 < j {
      ErrorsReportedOnce(start, inputs, i, j - 1);
      assert ResolutionAt(start, inputs, j - 1).step.None?;
    }
  }

  // ---- Server authority -----------------------------------------------------------------

  /**
    From a fresh start the anchor is confirmed exactly when some earlier tick was
    decided by the server.
   */
  lemma {:induction false} ConfirmedExactlyAfterServer(inputs: seq<Input>, n: nat)
    requires n <= |inputs|
    ensures var state := StateBefore(FRESH, inputs, n);
            (state.anchor.Some? && state.anchor.value.confirmed)
            <==> exists k :: 0 <= k < n && ResolutionAt(FRESH, inputs, k).source.Server?
    ensures n > 0 ==> StateBefore(FRESH, inputs, n).anchor.Some?
  {
    if n > 0 {
      ConfirmedExactlyAfterServer(inputs, n - 1);
      var last := ResolutionAt(FRESH, inputs, n - 1);
      if last.source.Server? {
        assert last.state.anchor.value.confirmed;
      }
    }
  }

  /** So no run outvotes the server before the server has decided at least once. */
  lemma OutvotedOnlyAfterServer(inputs: seq<Input>, n: nat)
    requires n < |inputs|
    requires ResolutionAt(FRESH, inputs, n).serverOutvoted
    ensures exists k :: 0 <= k < n && ResolutionAt(FRESH, inputs, k).source.Server?
  {
    ConfirmedExactlyAfterServer(inputs, n);
  }

  /** The server has decided one of the first `n` ticks of a fresh agent's run. */
  predicate ServerHasDecided(inputs: seq<Input>, n: nat)
    requires n <= |inputs|
  {
    exists k :: 0 <= k < n && ResolutionAt(FRESH, inputs, k).source.Server?
  }

  /**
    In every run from a fresh start a server anchor of the tick's own boot decides it, and is
    then taken as carried forward, unless all of this holds: the server has decided before, the
    wall agrees with the agent's own reckoning, and the anchor agrees with neither. Then the
    other two decide; with no anchor of the boot the server never does.
   */
  lemma ServerDecidesExactly(inputs: seq<Input>, n: nat)
    requires n < |inputs|
    ensures var Input(reading, server) := inputs[n];
            var r, own := ResolutionAt(FRESH, inputs, n), OwnReckoning(reading, StateBefore(FRESH, inputs, n));
            var present := server.Some? && server.value.boot == reading.boot;
            var remote := if present then server.value.utc + (reading.continuous - server.value.continuous) else 0;
            var beaten := && ServerHasDecided(inputs, n) && own.Some?
                          && Abs(own.value.at - reading.wall) <= 30 * SECOND
                          && Abs(remote - own.value.at) > 30 * SECOND && Abs(remote - reading.wall) > 30 * SECOND;
            && (r.source.Server? <==> present && !beaten)
            && (r.source.Server? ==> r.now == remote)
            && (r.serverOutvoted <==> present && beaten)
            && (!r.source.Server? ==>
                  r.now == if own.None? || Abs(own.value.at - reading.wall) <= 2 * SECOND then reading.wall
                           else own.value.at)
  {
    ConfirmedExactlyAfterServer(inputs, n);
  }

  /**
    What a tick of such a run says beside the instant: its source is the wall when there is no
    reckoning or the two are within two seconds of each other and the server was not outvoted;
    the server is corroborated when, having decided before, it agrees with the reckoning; and
    an outvoted server is announced exactly when the tick before did not outvote it.
   */
  lemma FlagsExactly(inputs: seq<Input>, n: nat)
    requires n < |inputs|
    ensures var Input(reading, server) := inputs[n];
            var r, own := ResolutionAt(FRESH, inputs, n), OwnReckoning(reading, StateBefore(FRESH, inputs, n));
            var present := server.Some? && server.value.boot == reading.boot;
            var remote := if present then server.value.utc + (reading.continuous - server.value.continuous) else 0;
            && (r.source.Wall? <==>
                  !r.source.Server? && !r.serverOutvoted
                  && (own.None? || Abs(own.value.at - reading.wall) <= 2 * SECOND))
            && (r.serverCorroborated <==>
                  present && ServerHasDecided(inputs, n) && own.Some? && Abs(remote - own.value.at) <= 30 * SECOND)
            && (r.serverOutvotedStarted <==>
                  r.serverOutvoted && (n == 0 || !ResolutionAt(FRESH, inputs, n - 1).serverOutvoted))
            && r.offset == reading.wall - r.now
  {
    ConfirmedExactlyAfterServer(inputs, n);
  }

  /** So the first anchor a run sees on its own boot is taken at once, however far off the wall is. */
  lemma FirstServerWordIsTaken(inputs: seq<Input>, server: Anchor, n: nat)
    requires n < |inputs| && inputs[n].server == Some(server) && server.boot == inputs[n].reading.boot
    requires forall k :: 0 <= k < n ==> !ResolutionAt(FRESH, inputs, k).source.Server?
    ensures ResolutionAt(FRESH, inputs, n).source.Server? && !ResolutionAt(FRESH, inputs, n).serverOutvoted
    ensures ResolutionAt(FRESH, inputs, n).now
            == server.utc + (inputs[n].reading.continuous - server.continuous)
  {
    hide Resolved;
    ServerDecidesExactly(inputs, n);
  }

  /**
    Once the server has decided a tick, every later tick with the same server
    anchor on the same boot is that anchor carried forward, whatever the wall reads.
   */
  lemma {:induction false} ServerStaysAuthority(start: State, inputs: seq<Input>, server: Anchor, n: nat)
    requires n < |inputs|
    requires forall i :: 0 <= i < |inputs| ==>
               inputs[i].server == Some(server) && inputs[i].reading.boot == server.boot
    requires ResolutionAt(start, inputs, 0).source.Server?
    ensures ResolutionAt(start, inputs, n).source.Server?
    ensures Some(ResolutionAt(start, inputs, n).now) == server.Project(inputs[n].reading)
    ensures n > 0 ==> ResolutionAt(start, inputs, n).serverCorroborated
  {
    if n > 0 {
      ServerStaysAuthority(start, inputs, server, n - 1);
      var state := StateBefore(start, inputs, n);
      var own := OwnReckoning(inputs[n].reading, state);
      assert own.Some? && Some(own.value.at) == server.Project(inputs[n].reading);
    }
  }

  /**
    The server stamped its reply at some continuous time between send and receive;
    the pinned anchor is then never further from the truth than half the round trip.
   */
  lemma ServerAnchorWithinHalfRoundTrip(
      serverTime: Instant, sent: Duration, received: Duration, stamped: Duration, reading: Reading)
    requires sent <= stamped <= received
    ensures var anchor := ServerAnchor(serverTime, sent, received, reading.boot);
            var truth := serverTime + (reading.continuous - stamped);
            anchor.Project(reading).Some?
            && 2 * Abs(anchor.Project(reading).value - truth) <= (received - sent) + 1
  {
    assert Max(0, received - sent) == received - sent;
  }

  // ---- High water -----------------------------------------------------------------------

  /** Every trusted instant so far is at most two seconds ahead of the anchor. */
  predicate HighWaterHeld(state: State) {
    match (state.anchor, state.highWater)
    case (None, None) => true
    case (Some(anchor), Some(mark)) => anchor.utc <= mark <= anchor.utc + REANCHOR_WITHIN
    case _ => false
  }

  /** Ticks of one boot are at least two seconds apart on its continuous clock. */
  predicate TicksApart(state: State, reading: Reading) {
    state.anchor.Some? && state.anchor.value.boot == reading.boot ==>
      reading.continuous - state.anchor.value.continuous >= REANCHOR_WITHIN
  }

  lemma HighWaterStep(state: State, input: Input)
    requires HighWaterHeld(state) && TicksApart(state, input.reading)
    ensures var r := Resolved(input.reading, input.server, state);
            && HighWaterHeld(r.state)
            && r.state.highWater.Some?
            && r.now <= r.state.highWater.value
            && (!r.source.Server? && state.highWater.Some? ==>
                  && state.highWater.value - REANCHOR_WITHIN <= r.now
                  && state.highWater.value <= r.state.highWater.value)
  {
  }

  predicate SpacedAt(start: State, inputs: seq<Input>, i: nat)
    requires i < |inputs|
  {
    TicksApart(StateBefore(start, inputs, i), inputs[i].reading)
  }

  predicate SpacedRun(start: State, inputs: seq<Input>) {
    forall i :: 0 <= i < |inputs| ==> SpacedAt(start, inputs, i)
  }

  lemma {:induction false} HighWaterKept(start: State, inputs: seq<Input>, i: nat, j: nat)
    requires HighWaterHeld(start) && SpacedRun(start, inputs)
    requires i < j <= |inputs|
    requires forall k :: i < k < j ==> !ResolutionAt(start, inputs, k).source.Server?
    ensures HighWaterHeld(StateBefore(start, inputs, j))
    ensures StateBefore(start, inputs, j).highWater.Some?
            && ResolutionAt(start, inputs, i).now <= StateBefore(start, inputs, j).highWater.value
  {
    HeldThroughout(start, inputs, j - 1);
    assert SpacedAt(start, inputs, j - 1);
    var last := ResolutionAt(start, inputs, j - 1);
    HighWaterStep(StateBefore(start, inputs, j - 1), inputs[j - 1]);
    if i < j - 1 {
      HighWaterKept(start, inputs, i, j - 1);
    }
  }

  lemma {:induction false} HeldThroughout(start: State, inputs: seq<Input>, n: nat)
    requires HighWaterHeld(start) && SpacedRun(start, inputs) && n <= |inputs|
    ensures HighWaterHeld(StateBefore(start, inputs, n))
  {
    if n > 0 {
      HeldThroughout(start, inputs, n - 1);
      assert SpacedAt(start, inputs, n - 1);
      HighWaterStep(StateBefore(start, inputs, n - 1), inputs[n - 1]);
    }
  }

  /**
    Between server decisions, across any wall readings and any number of reboots,
    no trusted instant is more than two seconds earlier than any previous one.
   */
  lemma NeverFarBackwards(start: State, inputs: seq<Input>, i: nat, j: nat)
    requires HighWaterHeld(start) && SpacedRun(start, inputs)
    requires i < j < |inputs|
    requires forall k :: i < k <= j ==> !ResolutionAt(start, inputs, k).source.Server?
    ensures ResolutionAt(start, inputs, i).now - REANCHOR_WITHIN <= ResolutionAt(start, inputs, j).now
  {
    HighWaterKept(start, inputs, i, j);
    assert SpacedAt(start, inputs, j);
    HighWaterStep(StateBefore(start, inputs, j), inputs[j]);
  }

  /**
    The high-water mark itself is not a floor. Offline, a reading is believed below
    it exactly when the wall is below it and within two seconds of the reckoning.
   */
  lemma BelowHighWaterExactly(reading: Reading, state: State)
    requires HighWaterHeld(state) && state.highWater.Some? && TicksApart(state, reading)
    ensures var mark := state.highWater.value;
            var own := OwnReckoning(reading, state).value.at;
            Resolved(reading, None, state).now < mark
            <==> reading.wall < mark && Abs(own - reading.wall) <= REANCHOR_WITHIN
  {
  }

  /** A reboot whose wall was moved back two seconds is believed two seconds early. */
  lemma HighWaterIsNotAFloor()
    ensures var state := State(Some(Anchor(10_000, 0, "a", false)), Some(10_000), 0, 0, false);
            HighWaterHeld(state)
            && Resolved(Reading(8_000, 0, "b"), None, state).now == state.highWater.value - REANCHOR_WITHIN
  {
  }

  // ---- Bounded error over offline runs ---------------------------------------------------

  /**
    The Mac and its surroundings, offline. `wallError` is wall minus true time and
    survives a reboot in the real-time clock; the continuous clock counts from `bootedAt`.
   */
  datatype World = World(
    truth: Instant,
    wallError: Duration,
    bootedAt: Instant,
    boot: BootSession,
    clock: State,
    lastTick: Instant,
    shifted: bool)
  {
    function Read(): Reading {
      Reading(truth + wallError, truth - bootedAt, boot)
    }

    /** Trusted minus true time, as of the last tick. */
    function Error(): Duration
      requires clock.anchor.Some?
    {
      clock.anchor.value.utc - lastTick
    }

    /** A tick has happened on this boot. */
    predicate SeenThisBoot() {
      clock.anchor.Some? && clock.anchor.value.boot == boot
    }

    /** Trusted time, carried on at its last error, has reached the high-water mark. */
    predicate PastMark() {
      clock.anchor.Some? && clock.highWater.Some? ==> clock.highWater.value <= truth + Error()
    }
  }

  datatype Event =
    | Pass(elapsed: nat)
    | Shift(delta: Duration)
    | Tick
    | Reboot(downtime: nat, session: BootSession)

  /**
    What the run allows. Ticks come at any time, the SIGTERM handler's included, but the
    first of a boot finds trusted time past the mark; a wall shift happens while the
    enforcer is up (it has ticked on this boot); and a shift is followed by a persisted
    resolution before the Mac goes down, which the SIGTERM handler makes.
   */
  predicate Allowed(w: World, e: Event) {
    match e
    case Pass(_) => true
    case Shift(_) => w.SeenThisBoot()
    case Tick => w.SeenThisBoot() || w.PastMark()
    case Reboot(_, session) =>
      !w.shifted && session != w.boot && (w.clock.anchor.Some? ==> session != w.clock.anchor.value.boot)
  }

  function Apply(w: World, e: Event): World {
    match e
    case Pass(elapsed) => w.(truth := w.truth + elapsed)
    case Shift(delta) => w.(wallError := w.wallError + delta, shifted := true)
    case Tick => w.(clock := Resolved(w.Read(), None, w.clock).state, lastTick := w.truth, shifted := false)
    case Reboot(downtime, session) =>
      w.(truth := w.truth + downtime, bootedAt := w.truth + downtime, boot := session)
  }

  function ApplyAll(w: World, events: seq<Event>): World {
    if events == [] then w
    else Apply(ApplyAll(w, events[..|events| - 1]), events[|events| - 1])
  }

  predicate AllowedRun(w: World, events: seq<Event>) {
    events == []
    || (AllowedRun(w, events[..|events| - 1])
        && Allowed(ApplyAll(w, events[..|events| - 1]), events[|events| - 1]))
  }

  function Shifts(events: seq<Event>): nat {
    if events == [] then 0
    else Shifts(events[..|events| - 1]) + (if events[|events| - 1].Shift? then 1 else 0)
  }

  /** Settled: the last tick either took the wall or found it further than two seconds away. */
  predicate Settled(w: World)
    requires w.clock.anchor.Some?
  {
    w.clock.offset == w.wallError - w.Error()
    && (w.Error() == w.wallError || Abs(w.Error() - w.wallError) > REANCHOR_WITHIN)
  }

  predicate Tracking(w: World) {
    && w.clock.anchor.Some?
    && w.clock.highWater.Some?
    && w.lastTick <= w.truth
    && (w.SeenThisBoot() ==> w.clock.anchor.value.continuous == w.lastTick - w.bootedAt)
    && (!w.SeenThisBoot() ==> !w.shifted)
    && (!w.shifted ==> Settled(w))
  }

  /** A fresh agent's first tick starts a tracked run. */
  lemma FirstTickTracks(w: World)
    requires w.clock == FRESH
    ensures Tracking(Apply(w, Tick)) && Apply(w, Tick).Error() == w.wallError
  {
  }

  /**
    One event. The error moves only on a tick with a shift since the tick before,
    only when the wall then sits within two seconds of the reckoning, and never by more.
   */
  lemma ErrorStep(w: World, e: Event)
    requires Tracking(w) && Allowed(w, e)
    ensures var w' := Apply(w, e);
            Tracking(w')
            && Abs(w'.Error() - w.Error()) <= REANCHOR_WITHIN
            && (w'.Error() != w.Error() ==>
                  e.Tick? && w.shifted && Abs(w.wallError - w.Error()) <= REANCHOR_WITHIN)
            && w'.shifted == (e.Shift? || (w.shifted && !e.Tick?))
  {
  }

  /**
    Over a whole offline run the trusted clock's error has moved by at most two
    seconds for each wall shift.
   */
  lemma {:induction false} ErrorBoundedByShifts(w: World, events: seq<Event>)
    requires Tracking(w) && !w.shifted && AllowedRun(w, events)
    ensures var w' := ApplyAll(w, events);
            Tracking(w')
            && Abs(w'.Error() - w.Error())
               <= REANCHOR_WITHIN * (Shifts(events) - (if w'.shifted then 1 else 0))
            && (w'.shifted ==> Shifts(events) > 0)
  {
    hide Apply, Allowed, Settled;
    if events != [] {
      var front := events[..|events| - 1];
      ErrorBoundedByShifts(w, front);
      ErrorStep(ApplyAll(w, front), events[|events| - 1]);
    }
  }

  /** Two seconds since the last tick are enough, with ticks spaced so that the mark is held. */
  lemma TwoSecondsPassTheMark(w: World)
    requires HighWaterHeld(w.clock) && w.truth - w.lastTick >= REANCHOR_WITHIN
    ensures w.PastMark()
  {
  }

  // ---- Shifts the clock never saw -----------------------------------------------------------

  /** The same persisted clock, later, on a boot that has not ticked; the wall may have been moved unseen. */
  predicate NotYetTicked(w: World, later: World) {
    && later.clock == w.clock && later.lastTick == w.lastTick && w.lastTick <= later.truth
    && w.clock.anchor.Some? && later.boot != w.clock.anchor.value.boot
  }

  /** What a boot starts from, as an error: the last one moved with the wall, or the mark. */
  function HeldError(w: World, later: World): Duration
    requires w.clock.anchor.Some? && w.clock.highWater.Some?
  {
    Max(w.Error() + (later.wallError - w.wallError), w.clock.highWater.value - later.truth)
  }

  /** The error the first tick of a boot settles on. */
  function FirstError(w: World, later: World): Duration
    requires w.clock.anchor.Some? && w.clock.highWater.Some?
  {
    var held := HeldError(w, later);
    if Abs(held - later.wallError) <= REANCHOR_WITHIN then later.wallError else held
  }

  /**
    The first tick of a boot, whatever was done to the wall since the last resolution, before
    the Mac went down or after it came up: every unseen shift goes into trusted time.
   */
  lemma FirstTickOfBoot(w: World, later: World)
    requires Tracking(w) && !w.shifted && NotYetTicked(w, later)
    ensures Apply(later, Tick).Error() == FirstError(w, later)
  {
  }

  /**
    So past the mark the error moves by exactly the unseen shift, and by more than two seconds
    exactly when that shift is more; short of the mark it is the mark that decides.
   */
  lemma UnseenShiftMovesExactly(w: World, later: World)
    requires Tracking(w) && !w.shifted && NotYetTicked(w, later)
    ensures var delta, moved := later.wallError - w.wallError, Apply(later, Tick).Error() - w.Error();
            var mark := w.clock.highWater.value - later.truth;
            && (mark <= w.Error() + delta ==> moved == delta)
            && (Abs(moved) > REANCHOR_WITHIN
                <==> if mark <= w.Error() + delta then Abs(delta) > REANCHOR_WITHIN
                     else if Abs(mark - later.wallError) <= REANCHOR_WITHIN
                     then Abs(later.wallError - w.Error()) > REANCHOR_WITHIN
                     else Abs(mark - w.Error()) > REANCHOR_WITHIN)
  {
    FirstTickOfBoot(w, later);
  }

  lemma ThreeEvents(w: World, a: Event, b: Event, c: Event)
    ensures ApplyAll(w, [a, b, c]) == Apply(Apply(Apply(w, a), b), c)
  {
    assert [a, b, c][..2] == [a, b] && [a, b][..1] == [a] && [a][..0] == [];
    assert ApplyAll(w, []) == w;
    assert ApplyAll(w, [a]) == Apply(w, a);
    assert ApplyAll(w, [a, b]) == Apply(Apply(w, a), b);
  }

  /** Both ways for a shift to go unseen, from any tracked world: just before a reboot, and just after it. */
  lemma UnseenShiftAroundReboot(w: World, delta: Duration, downtime: nat, session: BootSession)
    requires Tracking(w) && !w.shifted && session != w.clock.anchor.value.boot
    requires w.clock.highWater.value <= w.truth + downtime + w.Error() + delta
    ensures ApplyAll(w, [Shift(delta), Reboot(downtime, session), Tick]).Error() == w.Error() + delta
    ensures ApplyAll(w, [Reboot(downtime, session), Shift(delta), Tick]).Error() == w.Error() + delta
  {
    hide Tracking;
    ThreeEvents(w, Shift(delta), Reboot(downtime, session), Tick);
    ThreeEvents(w, Reboot(downtime, session), Shift(delta), Tick);
    LastTickIsPast(w);
    UnseenShiftMovesExactly(w, Apply(Apply(w, Shift(delta)), Reboot(downtime, session)));
    UnseenShiftMovesExactly(w, Apply(Apply(w, Reboot(downtime, session)), Shift(delta)));
  }

  lemma LastTickIsPast(w: World)
    requires Tracking(w)
    ensures w.lastTick <= w.truth && w.clock.anchor.Some? && w.clock.highWater.Some?
  {
  }
}
