/**
  The supervisor's loop closed over its own decisions: the version running, the last
  good one, the quarantine, and the soak marker. The process may die between any two writes
  of a tick, or between ticks; the files stay and the policy state is lost.
 */
module Supervisor {
  import opened Basics
  import SP = SupervisorPolicy
  import opened ShadowMode

  /** Everything the supervisor and its files remember. */
  datatype World = World(
    policy: SP.State,
    running: Version,
    lastGood: Option<Version>,
    quarantined: set<Version>,
    soak: Option<Soak>,
    soaked: set<Version>)

  /** What one tick observes, and whether an install it attempts succeeds. */
  datatype Observed = Observed(
    now: Instant,
    health: seq<SP.Health>,
    crashes: seq<Instant>,
    staged: seq<Version>,
    bootedAt: Instant,
    installSucceeds: bool)

  function InputsOf(world: World, seen: Observed): SP.Inputs {
    SP.Inputs(world.running, seen.health, seen.crashes, seen.staged, world.lastGood, world.quarantined, seen.bootedAt)
  }

  function DecisionOf(world: World, seen: Observed): SP.Decision {
    SP.StepOf(InputsOf(world, seen), world.policy, seen.now).decision
  }

  /** Refused for a version that has already soaked. */
  function SoakAfterInstall(soak: Option<Soak>, soaked: set<Version>, version: Version, now: Instant): Option<Soak> {
    if version in soaked then soak else Some(Begin(version, now))
  }

  function Carry(world: World, decision: SP.Decision, now: Instant, succeeds: bool): World {
    match decision
    case Idle => world
    case Report(_) => world
    case Install(version) =>
      if succeeds then
        world.(running := version, lastGood := Some(world.running),
               soak := SoakAfterInstall(world.soak, world.soaked, version, now))
      else world
    case Rollback(to, bad, _) =>
      world.(quarantined := world.quarantined + {bad}, soak := None, running := if succeeds then to else world.running)
  }

  function Promote(world: World, now: Instant): World {
    if world.soak.Some? && now >= world.soak.value.deadline then
      world.(soaked := world.soaked + {world.soak.value.version}, soak := None)
    else world
  }

  /** One tick as a function: the specification of `Daemon.Tick`. */
  function TickOf(world: World, seen: Observed): World {
    var step := SP.StepOf(InputsOf(world, seen), world.policy, seen.now);
    Promote(Carry(world.(policy := step.state), step.decision, seen.now, seen.installSucceeds), seen.now)
  }

  /** The daemon: static state, and the files beside it. */
  class Daemon {
    var state: SP.State
    var running: Version
    var lastGood: Option<Version>
    var quarantined: set<Version>
    var soak: Option<Soak>
    var soaked: set<Version>

    constructor (running: Version, lastGood: Option<Version>, quarantined: set<Version>,
                 soak: Option<Soak>, soaked: set<Version>)
      ensures View() == World(SP.INITIAL, running, lastGood, quarantined, soak, soaked)
    {
      state := SP.INITIAL;
      this.running, this.lastGood, this.quarantined := running, lastGood, quarantined;
      this.soak, this.soaked := soak, soaked;
    }

    function View(): World
      reads this
    {
      World(state, running, lastGood, quarantined, soak, soaked)
    }

    method Tick(seen: Observed) returns (decision: SP.Decision)
      modifies this
      ensures decision == DecisionOf(old(View()), seen)
      ensures View() == TickOf(old(View()), seen)
    {
      var inputs := SP.Inputs(running, seen.health, seen.crashes, seen.staged, lastGood, quarantined, seen.bootedAt);
      var step := SP.Step(inputs, state, seen.now);
      state := step.state;
      decision := step.decision;
      hide SP.StepOf;
      match decision {
        case Idle =>
        case Report(_) =>
        case Install(version) =>
          if seen.installSucceeds {
            lastGood := Some(inputs.running);
            EnterShadow(version, seen.now);
            running := version;
          }
        case Rollback(target, bad, _) =>
          // On record first, in case the install never finishes.
          quarantined := quarantined + {bad};
          // The target is not to shadow.
          soak := None;
          if seen.installSucceeds {
            running := target;
          }
      }
      PromoteIfDue(seen.now);
    }

    /** The only way into shadow. */
    method EnterShadow(version: Version, now: Instant)
      modifies this`soak
      ensures soak == SoakAfterInstall(old(soak), soaked, version, now)
    {
      if version in soaked {
        return;
      }
      soak := Some(Begin(version, now));
    }

    /** End a soak whose deadline has passed, and never repeat it. */
    method PromoteIfDue(now: Instant)
      modifies this`soak, this`soaked
      ensures View() == Promote(old(View()), now)
    {
      if soak.None? {
        return;
      }
      if now < soak.value.deadline {
        return;
      }
      soaked := soaked + {soak.value.version};
      soak := None;
    }
  }

  // ---- A tick as its writes -------------------------------------------------------------------------

  /** One change that outlives the process; `Replace` is the installer's. */
  datatype Write =
    | Replace(version: Version)
    | RecordLastGood(version: Version)
    | Mark(soak: Soak)
    | Quarantine(version: Version)
    | ClearMark
    | RecordSoaked(version: Version)

  function Written(world: World, write: Write): World {
    match write
    case Replace(version) => world.(running := version)
    case RecordLastGood(version) => world.(lastGood := Some(version))
    case Mark(soak) => world.(soak := Some(soak))
    case Quarantine(version) => world.(quarantined := world.quarantined + {version})
    case ClearMark => world.(soak := None)
    case RecordSoaked(version) => world.(soaked := world.soaked + {version})
  }

  /** The first `k` of these writes, or all when there are fewer. */
  function AfterFirst(world: World, writes: seq<Write>, k: nat): World
    decreases |writes|
  {
    if writes == [] || k == 0 then world else AfterFirst(Written(world, writes[0]), writes[1..], k - 1)
  }

  function ActionWrites(world: World, decision: SP.Decision, now: Instant, succeeds: bool): seq<Write> {
    match decision
    case Idle => []
    case Report(_) => []
    case Install(version) =>
      if !succeeds then []
      else if version in world.soaked then [Replace(version), RecordLastGood(world.running)]
      else [Replace(version), RecordLastGood(world.running), Mark(Begin(version, now))]
    case Rollback(to, bad, _) =>
      if succeeds then [Quarantine(bad), ClearMark, Replace(to)] else [Quarantine(bad), ClearMark]
  }

  function PromoteWrites(world: World, now: Instant): seq<Write> {
    if world.soak.Some? && now >= world.soak.value.deadline then [RecordSoaked(world.soak.value.version), ClearMark]
    else []
  }

  /** Everything a tick writes, in order. */
  function WritesOf(world: World, seen: Observed): seq<Write> {
    var action := ActionWrites(world, DecisionOf(world, seen), seen.now, seen.installSucceeds);
    action + PromoteWrites(AfterFirst(world, action, |action|), seen.now)
  }

  /** A tick, after which the process lives on, or dies with so many of the tick's writes done. */
  datatype Event = Event(seen: Observed, dies: Option<nat>)

  /** No tick makes more writes. */
  const ALL_WRITES := 5

  predicate Whole(t: Event) {
    t.dies.None? || t.dies.value >= ALL_WRITES
  }

  function Done(t: Event): nat {
    if t.dies.None? then ALL_WRITES else t.dies.value
  }

  /** What one event leaves: the files, and the policy state of a process that is still there or of a new one. */
  function Passed(world: World, t: Event): World {
    var step := SP.StepOf(InputsOf(world, t.seen), world.policy, t.seen.now);
    AfterFirst(world, WritesOf(world, t.seen), Done(t)).(policy := if t.dies.None? then step.state else SP.INITIAL)
  }

  lemma {:induction false} FirstOfJoined(world: World, first: seq<Write>, second: seq<Write>, k: nat)
    ensures AfterFirst(world, first + second, k)
            == if k <= |first| then AfterFirst(world, first, k)
               else AfterFirst(AfterFirst(world, first, |first|), second, k - |first|)
    decreases |first|
  {
    if first == [] {
      assert first + second == second;
    } else if k > 0 {
      assert (first + second)[1..] == first[1..] + second;
      FirstOfJoined(Written(world, first[0]), first[1..], second, k - 1);
    }
  }

  lemma {:induction false} AllOfThem(world: World, writes: seq<Write>, k: nat)
    requires |writes| <= k
    ensures AfterFirst(world, writes, k) == AfterFirst(world, writes, |writes|)
    decreases |writes|
  {
    if writes != [] {
      AllOfThem(Written(world, writes[0]), writes[1..], k - 1);
    }
  }

  lemma NoWrites(world: World)
    ensures AfterFirst(world, [], 0) == world
  {
  }

  lemma TwoWrites(world: World, a: Write, b: Write, k: nat)
    ensures AfterFirst(world, [a, b], k)
            == if k == 0 then world else if k == 1 then Written(world, a) else Written(Written(world, a), b)
  {
    hide Written;
    assert [a, b][1..] == [b] && [b][1..] == [];
    if k > 0 {
      var first := Written(world, a);
      assert AfterFirst(world, [a, b], k) == AfterFirst(first, [b], k - 1);
      if k > 1 {
        assert AfterFirst(first, [b], k - 1) == AfterFirst(Written(first, b), [], k - 2);
      }
    }
  }

  lemma ThreeWrites(world: World, a: Write, b: Write, c: Write, k: nat)
    ensures AfterFirst(world, [a, b, c], k)
            == if k == 0 then world else if k == 1 then Written(world, a)
               else if k == 2 then Written(Written(world, a), b) else Written(Written(Written(world, a), b), c)
  {
    hide Written;
    assert [a, b, c][1..] == [b, c];
    if k > 0 {
      TwoWrites(Written(world, a), b, c, k - 1);
    }
  }

  lemma ActionIsItsWrites(world: World, d: SP.Decision, now: Instant, succeeds: bool)
    ensures var action := ActionWrites(world, d, now, succeeds);
            |action| <= 3 && AfterFirst(world, action, |action|) == Carry(world, d, now, succeeds)
  {
    hide AfterFirst;
    var action := ActionWrites(world, d, now, succeeds);
    NoWrites(world);
    match d {
      case Install(version) =>
        if succeeds {
          TwoWrites(world, action[0], action[1], 2);
          if |action| == 3 {
            ThreeWrites(world, action[0], action[1], action[2], 3);
          }
        }
      case Rollback(_, _, _) =>
        TwoWrites(world, action[0], action[1], 2);
        if |action| == 3 {
          ThreeWrites(world, action[0], action[1], action[2], 3);
        }
      case _ =>
    }
  }

  lemma PromotionIsItsWrites(world: World, now: Instant)
    ensures var writes := PromoteWrites(world, now);
            |writes| <= 2 && AfterFirst(world, writes, |writes|) == Promote(world, now)
  {
    hide AfterFirst;
    NoWrites(world);
    if PromoteWrites(world, now) != [] {
      TwoWrites(world, RecordSoaked(world.soak.value.version), ClearMark, 2);
    }
  }

  /** A tick not cut short is the tick the daemon makes. */
  lemma WholeTick(world: World, t: Event)
    requires Whole(t)
    ensures Passed(world, t)
            == TickOf(world, t.seen).(policy := if t.dies.None? then TickOf(world, t.seen).policy else SP.INITIAL)
  {
    hide SP.StepOf, AfterFirst, Carry, ActionWrites, PromoteWrites;
    var seen, d := t.seen, DecisionOf(world, t.seen);
    var policy := SP.StepOf(InputsOf(world, seen), world.policy, seen.now).state;
    var action := ActionWrites(world, d, seen.now, seen.installSucceeds);
    var mid := AfterFirst(world, action, |action|);
    var promotion := PromoteWrites(mid, seen.now);
    ActionIsItsWrites(world, d, seen.now, seen.installSucceeds);
    PromotionIsItsWrites(mid, seen.now);
    AllOfThem(world, action + promotion, Done(t));
    FirstOfJoined(world, action, promotion, |action + promotion|);
    if promotion == [] {
      NoWrites(mid);
    }
    CarryKeepsPolicy(world, policy, d, seen.now, seen.installSucceeds);
  }

  lemma CarryKeepsPolicy(world: World, policy: SP.State, d: SP.Decision, now: Instant, succeeds: bool)
    ensures Carry(world.(policy := policy), d, now, succeeds) == Carry(world, d, now, succeeds).(policy := policy)
  {
  }

  // ---- What an event does -----------------------------------------------------------------------------

  predicate TouchesMarker(write: Write) {
    write.Mark? || write.ClearMark? || write.RecordSoaked?
  }

  lemma {:induction false} MarkerWritesOnly(world: World, writes: seq<Write>, k: nat)
    requires forall i :: 0 <= i < |writes| ==> TouchesMarker(writes[i])
    ensures var next := AfterFirst(world, writes, k);
            && next.running == world.running && next.lastGood == world.lastGood
            && next.quarantined == world.quarantined
            && (next.soak == world.soak || next.soak.None?
                || exists i :: 0 <= i < |writes| && writes[i] == Mark(next.soak.value))
    decreases |writes|
  {
    if writes != [] && k > 0 {
      MarkerWritesOnly(Written(world, writes[0]), writes[1..], k - 1);
      var next := AfterFirst(world, writes, k);
      if next.soak.Some? && next.soak != Written(world, writes[0]).soak {
        var i :| 0 <= i < |writes[1..]| && writes[1..][i] == Mark(next.soak.value);
        assert writes[i + 1] == Mark(next.soak.value);
      }
    }
  }

  /** The installer puts the version in, and the tick may still be cut short. */
  predicate PutsIn(world: World, t: Event, version: Version) {
    DecisionOf(world, t.seen) == SP.Install(version) && t.seen.installSucceeds && Done(t) >= 1
  }

  /** The process dies after the installer has put a version in and before the one it replaced is on record. */
  predicate Orphans(world: World, t: Event) {
    DecisionOf(world, t.seen).Install? && t.seen.installSucceeds && Done(t) == 1
  }

  /** An event by its decision and how far it gets, with installs that may fail. */
  lemma EventFacts(world: World, t: Event)
    ensures var next, d := Passed(world, t), DecisionOf(world, t.seen);
            && (d.Install? ==>
                  var inside := PutsIn(world, t, d.version);
                  && next.running == (if inside then d.version else world.running)
                  && next.lastGood == (if inside && !Orphans(world, t) then Some(world.running) else world.lastGood)
                  && next.quarantined == world.quarantined)
            && (d.Rollback? ==>
                  && next.running == (if t.seen.installSucceeds && Done(t) >= 3 then d.to else world.running)
                  && next.lastGood == world.lastGood
                  && next.quarantined
                     == (if Done(t) >= 1 then world.quarantined + {d.quarantine} else world.quarantined)
                  && next.soak == (if Done(t) >= 2 then None else world.soak))
            && (!d.Kickstarts() ==>
                  && next.running == world.running && next.lastGood == world.lastGood
                  && next.quarantined == world.quarantined)
            && (next.soak == world.soak || next.soak.None?
                || (d.Install? && PutsIn(world, t, d.version) && next.soak == Some(Begin(d.version, t.seen.now))))
  {
    hide SP.StepOf;
    var d := DecisionOf(world, t.seen);
    match d {
      case Install(version) => InstallFacts(world, t);
      case Rollback(_, _, _) => RollbackEvent(world, t);
      case _ =>
        var writes := PromoteWrites(world, t.seen.now);
        assert [] + writes == writes;
        MarkerWritesOnly(world, writes, Done(t));
    }
  }

  lemma InstallFacts(world: World, t: Event)
    requires DecisionOf(world, t.seen).Install?
    ensures var next, version := Passed(world, t), DecisionOf(world, t.seen).version;
            var inside := PutsIn(world, t, version);
            && next.running == (if inside then version else world.running)
            && next.lastGood == (if inside && !Orphans(world, t) then Some(world.running) else world.lastGood)
            && next.quarantined == world.quarantined
            && (next.soak == world.soak || next.soak.None?
                || (inside && next.soak == Some(Begin(version, t.seen.now))))
  {
    hide SP.StepOf;
    var version, k := DecisionOf(world, t.seen).version, Done(t);
    var writes := WritesOf(world, t.seen);
    if !t.seen.installSucceeds {
      MarkerWritesOnly(world, writes, k);
    } else if k > 0 {
      var marker := writes[2..];
      assert writes[1..][1..] == marker && writes[1..][0] == RecordLastGood(world.running);
      var second := Written(world, Replace(version));
      var third := Written(second, RecordLastGood(world.running));
      if k > 1 {
        MarkerWritesOnly(third, marker, k - 2);
        assert AfterFirst(world, writes, k) == AfterFirst(third, marker, k - 2);
      }
    }
  }

  lemma RollbackEvent(world: World, t: Event)
    requires DecisionOf(world, t.seen).Rollback?
    ensures var next, d := Passed(world, t), DecisionOf(world, t.seen);
            && next.running == (if t.seen.installSucceeds && Done(t) >= 3 then d.to else world.running)
            && next.lastGood == world.lastGood
            && next.quarantined == (if Done(t) >= 1 then world.quarantined + {d.quarantine} else world.quarantined)
            && next.soak == (if Done(t) >= 2 then None else world.soak)
  {
    hide SP.StepOf;
    var d, k := DecisionOf(world, t.seen), Done(t);
    hide AfterFirst;
    var action := ActionWrites(world, d, t.seen.now, t.seen.installSucceeds);
    if |action| == 3 {
      ThreeWrites(world, action[0], action[1], action[2], 3);
      ThreeWrites(world, action[0], action[1], action[2], k);
    } else {
      TwoWrites(world, action[0], action[1], 2);
      TwoWrites(world, action[0], action[1], k);
    }
    assert WritesOf(world, t.seen) == action;
  }

  /**
    The soak marker and the record of soaked versions after a tick not cut short: a roll-back
    clears the marker and records nothing; an install of a version that has not soaked begins
    one, for 36 hours; otherwise a marker is cleared, and its version recorded, exactly once its
    deadline has come.
   */
  lemma MarkerExactly(world: World, t: Event)
    requires Whole(t)
    ensures var next, d, now := Passed(world, t), DecisionOf(world, t.seen), t.seen.now;
            if d.Rollback? then next.soak.None? && next.soaked == world.soaked
            else if d.Install? && t.seen.installSucceeds && d.version !in world.soaked then
              next.soak == Some(Soak(d.version, now, now + 36 * HOUR)) && next.soaked == world.soaked
            else if world.soak.Some? && world.soak.value.deadline <= now then
              next.soak.None? && next.soaked == world.soaked + {world.soak.value.version}
            else next.soak == world.soak && next.soaked == world.soaked
  {
    hide SP.StepOf, AfterFirst, WritesOf, Written;
    WholeTick(world, t);
  }

  // ---- Runs --------------------------------------------------------------------------------------

  function WorldBefore(start: World, run: seq<Event>, n: nat): World
    requires n <= |run|
  {
    if n == 0 then start else Passed(WorldBefore(start, run, n - 1), run[n - 1])
  }

  function DecisionAt(start: World, run: seq<Event>, n: nat): SP.Decision
    requires n < |run|
  {
    DecisionOf(WorldBefore(start, run, n), run[n].seen)
  }

  /** A finite universe of versions is ever staged. */
  predicate InUniverse(run: seq<Event>, universe: set<Version>) {
    forall i :: 0 <= i < |run| ==> forall v :: v in run[i].seen.staged ==> v in universe
  }

  /** Installs work, and the process may die between ticks but not in one. */
  predicate Undisturbed(run: seq<Event>) {
    forall i :: 0 <= i < |run| ==> run[i].seen.installSucceeds && Whole(run[i])
  }

  /** The running and last-good versions are not quarantined. */
  predicate Sound(world: World, universe: set<Version>) {
    && world.running in universe
    && world.running !in world.quarantined
    && (world.lastGood.Some? ==> world.lastGood.value !in world.quarantined)
  }

  /** What a whole tick does to versions, by decision. */
  lemma TickVersions(world: World, t: Event, universe: set<Version>)
    requires Sound(world, universe) && t.seen.installSucceeds && Whole(t)
    requires forall v :: v in t.seen.staged ==> v in universe
    ensures var next, d := Passed(world, t), DecisionOf(world, t.seen);
            && Sound(next, universe)
            && (d.Install? ==>
                  && next.running == d.version && next.lastGood == Some(world.running)
                  && next.quarantined == world.quarantined
                  && d.version in universe && d.version !in world.quarantined
                  && SP.IsNewer(d.version, world.running))
            && (d.Rollback? ==>
                  && world.lastGood == Some(next.running) && next.lastGood == world.lastGood
                  && next.quarantined == world.quarantined + {world.running}
                  && next.running != world.running)
            && (!d.Kickstarts() ==>
                  && next.running == world.running && next.lastGood == world.lastGood
                  && next.quarantined == world.quarantined)
  {
    hide SP.StepOf, Passed, SP.IsNewer;
    EventFacts(world, t);
    Targets(world, t.seen);
  }

  /** An install is of a newer staged version, a rollback to a staged last-good one. */
  lemma Targets(world: World, seen: Observed)
    ensures var d := DecisionOf(world, seen);
            && (d.Install? ==>
                  && d.version in seen.staged && d.version !in world.quarantined && Some(d.version) != world.lastGood
                  && SP.IsNewer(d.version, world.running) && d.version != world.running)
            && (d.Rollback? ==>
                  && world.lastGood == Some(d.to) && d.to in seen.staged
                  && d.quarantine == world.running && d.to != world.running)
  {
    hide SP.StepOf, SP.IsNewer;
    var d := DecisionOf(world, seen);
    if d.Install? {
      SP.InstallsNewestCandidate(InputsOf(world, seen), world.policy, seen.now);
    } else if d.Rollback? {
      SP.RollbackFacts(InputsOf(world, seen), world.policy, seen.now);
    }
  }

  /**
    An event keeps the running and last-good versions out of quarantine exactly when it is
    not a rollback that stops, by failing or by dying, with the bad version on record and
    still running.
   */
  lemma SoundKeptExactly(world: World, t: Event, universe: set<Version>)
    requires Sound(world, universe) && forall v :: v in t.seen.staged ==> v in universe
    ensures Sound(Passed(world, t), universe)
            <==> !(DecisionOf(world, t.seen).Rollback? && Done(t) >= 1 && !(t.seen.installSucceeds && Done(t) >= 3))
  {
    hide SP.StepOf, Passed, SP.IsNewer;
    EventFacts(world, t);
    Targets(world, t.seen);
  }

  lemma {:induction false} SoundThroughout(start: World, run: seq<Event>, universe: set<Version>, n: nat)
    requires Sound(start, universe) && InUniverse(run, universe) && Undisturbed(run) && n <= |run|
    ensures Sound(WorldBefore(start, run, n), universe)
  {
    hide Passed;
    if n > 0 {
      SoundThroughout(start, run, universe, n - 1);
      TickVersions(WorldBefore(start, run, n - 1), run[n - 1], universe);
    }
  }

  // ---- No oscillation --------------------------------------------------------------------------------

  function Allowed(world: World, universe: set<Version>): set<Version> {
    universe - world.quarantined
  }

  function Newer(world: World, universe: set<Version>): set<Version> {
    set v | v in universe && SP.IsNewer(v, world.running)
  }

  lemma SubsetSize<T>(a: set<T>, b: set<T>)
    requires a <= b
    ensures |a| <= |b| && (a != b ==> |a| < |b|)
  {
    assert b == a + (b - a);
    assert |b| == |a| + |b - a|;
  }

  lemma ProperSubsetSize<T>(a: set<T>, b: set<T>, x: T)
    requires a <= b && x in b && x !in a
    ensures |a| < |b|
  {
    SubsetSize(a, b - {x});
  }

  /**
    Every install or rollback makes lexicographic progress: a rollback leaves fewer
    versions outside quarantine; an install leaves those and fewer versions newer than
    the one running. Nothing else moves either.
   */
  lemma ActionsMakeProgress(world: World, t: Event, universe: set<Version>)
    requires Sound(world, universe) && t.seen.installSucceeds && Whole(t)
    requires forall v :: v in t.seen.staged ==> v in universe
    ensures var next, d := Passed(world, t), DecisionOf(world, t.seen);
            && (d.Rollback? ==> |Allowed(next, universe)| < |Allowed(world, universe)|)
            && (d.Install? ==>
                  && Allowed(next, universe) == Allowed(world, universe)
                  && |Newer(next, universe)| < |Newer(world, universe)|)
            && (!d.Kickstarts() ==>
                  Allowed(next, universe) == Allowed(world, universe)
                  && Newer(next, universe) == Newer(world, universe))
            && |Newer(next, universe)| <= |universe|
  {
    TickVersions(world, t, universe);
    hide Passed;
    var next, d := Passed(world, t), DecisionOf(world, t.seen);
    SubsetSize(Newer(next, universe), universe);
    if d.Rollback? {
      ProperSubsetSize(Allowed(next, universe), Allowed(world, universe), world.running);
    } else if d.Install? {
      forall v | v in Newer(next, universe) ensures v in Newer(world, universe) {
        SP.NewerOneWay(SP.Components(d.version), SP.Components(world.running), 0);
        SP.NewerTransitive(v, d.version, world.running);
      }
      SP.NewerIrreflexive(d.version);
      ProperSubsetSize(Newer(next, universe), Newer(world, universe), d.version);
    }
  }

  function Actions(start: World, run: seq<Event>, n: nat): nat
    requires n <= |run|
  {
    if n == 0 then 0 else Actions(start, run, n - 1) + (if DecisionAt(start, run, n - 1).Kickstarts() then 1 else 0)
  }

  /** The lexicographic measure as one number. */
  function Rank(world: World, universe: set<Version>): nat {
    |Allowed(world, universe)| * (|universe| + 1) + |Newer(world, universe)|
  }

  lemma LexicographicDrop(a: nat, b: nat, a': nat, b': nat, k: nat)
    requires b' < k
    requires a' < a || (a' == a && b' < b)
    ensures a' * k + b' < a * k + b
  {
    if a' < a {
      TimesMonotone(a' + 1, a, k);
      assert (a' + 1) * k == a' * k + k;
    }
  }

  lemma {:induction false} ActionsSpendRank(start: World, run: seq<Event>, universe: set<Version>, n: nat)
    requires Sound(start, universe) && InUniverse(run, universe) && Undisturbed(run) && n <= |run|
    ensures Actions(start, run, n) + Rank(WorldBefore(start, run, n), universe) <= Rank(start, universe)
  {
    hide Passed, SP.StepOf, SP.IsNewer;
    if n > 0 {
      ActionsSpendRank(start, run, universe, n - 1);
      SoundThroughout(start, run, universe, n - 1);
      var world, next := WorldBefore(start, run, n - 1), WorldBefore(start, run, n);
      ActionsMakeProgress(world, run[n - 1], universe);
      if DecisionAt(start, run, n - 1).Kickstarts() {
        LexicographicDrop(|Allowed(world, universe)|, |Newer(world, universe)|,
                          |Allowed(next, universe)|, |Newer(next, universe)|, |universe| + 1);
      }
    }
  }

  /**
    No install and downgrade oscillation: however long the run and however often the process
    is restarted between ticks, the supervisor acts fewer than (N + 1) squared times over a
    universe of N versions.
   */
  lemma ActionsAreFinite(start: World, run: seq<Event>, universe: set<Version>)
    requires Sound(start, universe) && InUniverse(run, universe) && Undisturbed(run)
    ensures Actions(start, run, |run|) < (|universe| + 1) * (|universe| + 1)
  {
    hide Passed, Rank, Actions;
    ActionsSpendRank(start, run, universe, |run|);
    RankIsBounded(start, universe);
  }

  lemma RankIsBounded(world: World, universe: set<Version>)
    ensures Rank(world, universe) < (|universe| + 1) * (|universe| + 1)
  {
    SubsetSize(Allowed(world, universe), universe);
    SubsetSize(Newer(world, universe), universe);
    hide Allowed, Newer;
    LexicographicDrop(|universe| + 1, 0, |Allowed(world, universe)|, |Newer(world, universe)|, |universe| + 1);
  }

  // ---- However often it dies ---------------------------------------------------------------------------

  /** Which versions may still run, with the quarantined one that has not been replaced yet. */
  function Level(world: World, universe: set<Version>): nat {
    2 * |Allowed(world, universe)| + (if world.running in world.quarantined then 1 else 0)
  }

  /** What moves within a level: one rollback from a quarantined version, or upgrades. */
  function Within(world: World, universe: set<Version>): nat {
    if world.running !in world.quarantined then |Newer(world, universe)|
    else if world.lastGood == Some(world.running) then 0 else 1
  }

  function Standing(world: World, universe: set<Version>): nat {
    Level(world, universe) * (|universe| + 1) + Within(world, universe)
  }

  lemma WithinBound(world: World, universe: set<Version>)
    requires world.running in universe
    ensures Within(world, universe) <= |universe|
  {
    SubsetSize(Newer(world, universe), universe);
    assert universe == universe - {world.running} + {world.running};
  }

  lemma QuarantineOne(world: World, next: World, universe: set<Version>)
    requires world.running in universe && next.quarantined == world.quarantined + {world.running}
    ensures |Allowed(next, universe)|
            == |Allowed(world, universe)| - (if world.running in world.quarantined then 0 else 1)
  {
    if world.running in world.quarantined {
      assert Allowed(next, universe) == Allowed(world, universe);
    } else {
      assert Allowed(world, universe) == Allowed(next, universe) + {world.running};
    }
  }

  lemma NewerShrinks(world: World, next: World, universe: set<Version>)
    requires SP.IsNewer(next.running, world.running) && next.running in universe
    ensures |Newer(next, universe)| < |Newer(world, universe)|
  {
    forall v | v in Newer(next, universe) ensures v in Newer(world, universe) {
      NewerThanInstalled(v, next.running, world.running);
    }
    SP.NewerIrreflexive(next.running);
    ProperSubsetSize(Newer(next, universe), Newer(world, universe), next.running);
  }

  lemma NewerThanInstalled(version: Version, installed: Version, before: Version)
    requires SP.IsNewer(version, installed) && SP.IsNewer(installed, before)
    ensures SP.IsNewer(version, before)
  {
    SP.NewerOneWay(SP.Components(installed), SP.Components(before), 0);
    SP.NewerTransitive(version, installed, before);
  }

  /** Whatever fails or is cut short, no event gains standing, and one that changes the running version loses some. */
  lemma StandingSpent(world: World, t: Event, universe: set<Version>)
    requires world.running in universe && forall v :: v in t.seen.staged ==> v in universe
    ensures var next := Passed(world, t);
            && next.running in universe
            && Standing(next, universe) <= Standing(world, universe)
            && (next.running != world.running ==> Standing(next, universe) < Standing(world, universe))
  {
    hide SP.StepOf, Passed, SP.IsNewer, Newer, Allowed;
    var next, d := Passed(world, t), DecisionOf(world, t.seen);
    EventFacts(world, t);
    Targets(world, t.seen);
    WithinBound(world, universe);
    SameSets(world, next, universe);
    if d.Rollback? && Done(t) >= 1 {
      QuarantineOne(world, next, universe);
    } else if d.Install? && next.running != world.running {
      NewerShrinks(world, next, universe);
    }
    WithinBound(next, universe);
    if Level(next, universe) < Level(world, universe)
       || (Level(next, universe) == Level(world, universe) && Within(next, universe) < Within(world, universe)) {
      LexicographicDrop(Level(world, universe), Within(world, universe), Level(next, universe),
                        Within(next, universe), |universe| + 1);
    } else {
      assert Level(next, universe) == Level(world, universe) && Within(next, universe) == Within(world, universe);
    }
  }

  lemma SameSets(world: World, next: World, universe: set<Version>)
    ensures next.quarantined == world.quarantined ==> Allowed(next, universe) == Allowed(world, universe)
    ensures next.running == world.running ==> Newer(next, universe) == Newer(world, universe)
  {
  }

  function Changes(start: World, run: seq<Event>, n: nat): nat
    requires n <= |run|
  {
    if n == 0 then 0
    else
      Changes(start, run, n - 1)
      + (if WorldBefore(start, run, n).running != WorldBefore(start, run, n - 1).running then 1 else 0)
  }

  lemma {:induction false} ChangesSpendStanding(start: World, run: seq<Event>, universe: set<Version>, n: nat)
    requires start.running in universe && InUniverse(run, universe) && n <= |run|
    ensures WorldBefore(start, run, n).running in universe
    ensures Changes(start, run, n) + Standing(WorldBefore(start, run, n), universe) <= Standing(start, universe)
  {
    hide Passed, Standing;
    if n > 0 {
      ChangesSpendStanding(start, run, universe, n - 1);
      StandingSpent(WorldBefore(start, run, n - 1), run[n - 1], universe);
    }
  }

  /**
    From any files, with installs that may fail and a process that may die between any two
    writes: over a universe of N versions the one running changes fewer than
    (2 N + 1)(N + 1) times. What is cut short may be tried again; what is done is not undone for ever.
   */
  lemma ChangesAreFinite(start: World, run: seq<Event>, universe: set<Version>)
    requires start.running in universe && InUniverse(run, universe)
    ensures Changes(start, run, |run|) < (2 * |universe| + 1) * (|universe| + 1)
  {
    hide Passed, Standing, Changes;
    ChangesSpendStanding(start, run, universe, |run|);
    StandingBound(start, universe);
  }

  lemma StandingBound(world: World, universe: set<Version>)
    requires world.running in universe
    ensures Standing(world, universe) < (2 * |universe| + 1) * (|universe| + 1)
  {
    LevelBound(world, universe);
    WithinBound(world, universe);
    hide Level, Within;
    LexicographicDrop(2 * |universe| + 1, 0, Level(world, universe), Within(world, universe), |universe| + 1);
  }

  lemma LevelBound(world: World, universe: set<Version>)
    requires world.running in universe
    ensures Level(world, universe) <= 2 * |universe|
  {
    SubsetSize(Allowed(world, universe), universe);
    SubsetSize(universe - {world.running}, universe);
    if world.running in world.quarantined {
      SubsetSize(Allowed(world, universe), universe - {world.running});
    }
  }

  // ---- Each version is installed, and so soaked, at most once --------------------------------------------

  predicate InstallsAt(start: World, run: seq<Event>, i: nat, version: Version)
    requires i < |run|
  {
    PutsIn(WorldBefore(start, run, i), run[i], version)
  }

  /** No process dies between an install and the record of the version it replaced. */
  predicate NoOrphans(start: World, run: seq<Event>, n: nat)
    requires n <= |run|
  {
    forall i :: 0 <= i < n ==> !Orphans(WorldBefore(start, run, i), run[i])
  }

  /** Quarantined, or no newer than the running version nor, unless it is running, than a rollback target. */
  predicate Settled(world: World, version: Version) {
    || version in world.quarantined
    || (!SP.IsNewer(version, world.running)
        && (world.lastGood.Some? && world.lastGood.value != world.running && version != world.running ==>
              !SP.IsNewer(version, world.lastGood.value)))
  }

  lemma SettledKept(world: World, t: Event, version: Version)
    requires Settled(world, version) && !Orphans(world, t)
    ensures DecisionOf(world, t.seen) != SP.Install(version)
    ensures Settled(Passed(world, t), version)
  {
    hide SP.StepOf, Passed, SP.IsNewer;
    var next, d := Passed(world, t), DecisionOf(world, t.seen);
    EventFacts(world, t);
    Targets(world, t.seen);
    SP.NewerIrreflexive(version);
    if d.Install? && SP.IsNewer(version, d.version) {
      NewerThanInstalled(version, d.version, world.running);
    }
  }

  lemma InstalledIsSettled(world: World, t: Event, version: Version)
    requires PutsIn(world, t, version)
    ensures Settled(Passed(world, t), version)
  {
    hide SP.StepOf, Passed, SP.IsNewer;
    EventFacts(world, t);
    SP.NewerIrreflexive(version);
  }

  lemma {:induction false} SettledThroughout(start: World, run: seq<Event>, from: nat, n: nat, version: Version)
    requires from <= n <= |run| && NoOrphans(start, run, n) && Settled(WorldBefore(start, run, from), version)
    ensures Settled(WorldBefore(start, run, n), version)
  {
    hide Passed, Settled, Orphans;
    if from < n {
      SettledThroughout(start, run, from, n - 1, version);
      SettledKept(WorldBefore(start, run, n - 1), run[n - 1], version);
    }
  }

  /**
    No version is installed twice: over any run, restarted or cut short anywhere else and with
    installs that may fail, unless a process dies between an install and its last-good record.
   */
  lemma NeverInstalledTwice(start: World, run: seq<Event>, i: nat, j: nat, version: Version)
    requires i < j < |run| && NoOrphans(start, run, j + 1) && InstallsAt(start, run, i, version)
    ensures DecisionAt(start, run, j) != SP.Install(version)
  {
    hide Passed, Settled, PutsIn, Orphans, DecisionOf;
    InstalledIsSettled(WorldBefore(start, run, i), run[i], version);
    SettledThroughout(start, run, i + 1, j, version);
    SettledKept(WorldBefore(start, run, j), run[j], version);
  }

  /** The marker on disk was begun by the install of its version. */
  predicate MarkerEarned(start: World, run: seq<Event>, n: nat, soak: Soak, i: nat)
    requires n <= |run| && i < n
  {
    InstallsAt(start, run, i, soak.version) && soak == Begin(soak.version, run[i].seen.now)
  }

  /** The marker on disk is the one the run found, or was begun by the install of its version. */
  lemma {:induction false} MarkersAreEarned(start: World, run: seq<Event>, n: nat)
    requires n <= |run|
    ensures var soak := WorldBefore(start, run, n).soak;
            soak.Some? && soak != start.soak ==> exists i :: 0 <= i < n && MarkerEarned(start, run, n, soak.value, i)
  {
    hide Passed, PutsIn, DecisionOf;
    if n > 0 {
      MarkersAreEarned(start, run, n - 1);
      EventFacts(WorldBefore(start, run, n - 1), run[n - 1]);
      var before, soak := WorldBefore(start, run, n - 1).soak, WorldBefore(start, run, n).soak;
      if soak.Some? && soak != start.soak {
        if soak == before {
          var i :| 0 <= i < n - 1 && MarkerEarned(start, run, n - 1, before.value, i);
          assert MarkerEarned(start, run, n, soak.value, i);
        } else {
          assert MarkerEarned(start, run, n, soak.value, n - 1);
        }
      }
    }
  }

  /** The enforcer of this run would shadow at `now`, between events `n - 1` and `n`. */
  predicate ShadowsAt(start: World, run: seq<Event>, n: nat, now: Instant)
    requires n <= |run|
  {
    var world := WorldBefore(start, run, n);
    VerdictOf(world.soak, world.running, now).Shadowing?
  }

  /** A run may start in the middle of a soak, of a version that is not to be installed any more. */
  predicate StartsSettled(start: World) {
    start.soak.Some? ==> Settled(start, start.soak.value.version)
  }

  /**
    Over a whole run, restarts and all, a version shadows under one marker only: the one its
    one install began, or the one the run found; so for less than 36 hours and two minutes.
   */
  lemma VersionsShadowOnce(start: World, run: seq<Event>, n: nat, m: nat, s: Instant, t: Instant)
    requires StartsSettled(start) && n <= |run| && m <= |run| && NoOrphans(start, run, Max(n, m))
    requires ShadowsAt(start, run, n, s) && ShadowsAt(start, run, m, t)
    requires WorldBefore(start, run, n).running == WorldBefore(start, run, m).running
    ensures WorldBefore(start, run, n).soak == WorldBefore(start, run, m).soak
    ensures Abs(t - s) < MAX_DURATION + 2 * MINUTE
    ensures var soak := WorldBefore(start, run, n).soak;
            soak == start.soak || exists i :: 0 <= i < n && MarkerEarned(start, run, n, soak.value, i)
  {
    hide Passed, DecisionOf, WorldBefore, PutsIn, Settled, Orphans;
    MarkersAreEarned(start, run, n);
    OneMarker(start, run, n, m);
    ShadowIsBounded(WorldBefore(start, run, n).soak, WorldBefore(start, run, n).running,
                    WorldBefore(start, run, n).running, s, t);
  }

  lemma OneMarker(start: World, run: seq<Event>, n: nat, m: nat)
    requires StartsSettled(start) && n <= |run| && m <= |run| && NoOrphans(start, run, Max(n, m))
    requires WorldBefore(start, run, n).soak.Some? && WorldBefore(start, run, m).soak.Some?
    requires WorldBefore(start, run, n).soak.value.version == WorldBefore(start, run, m).soak.value.version
    ensures WorldBefore(start, run, n).soak == WorldBefore(start, run, m).soak
  {
    hide Passed, DecisionOf, PutsIn, Settled, Orphans;
    MarkersAreEarned(start, run, n);
    MarkersAreEarned(start, run, m);
    var a, b := WorldBefore(start, run, n).soak, WorldBefore(start, run, m).soak;
    if a != b && a != start.soak && b != start.soak {
      var i :| 0 <= i < n && MarkerEarned(start, run, n, a.value, i);
      var j :| 0 <= j < m && MarkerEarned(start, run, m, b.value, j);
      InstalledOnce(start, run, i, j, a.value.version);
    } else if a != b && a != start.soak {
      var i :| 0 <= i < n && MarkerEarned(start, run, n, a.value, i);
      NotInstalledAgain(start, run, i, a.value.version);
    } else if a != b {
      var j :| 0 <= j < m && MarkerEarned(start, run, m, b.value, j);
      NotInstalledAgain(start, run, j, b.value.version);
    }
  }

  lemma InstalledOnce(start: World, run: seq<Event>, i: nat, j: nat, version: Version)
    requires i < |run| && j < |run| && NoOrphans(start, run, Max(i, j) + 1)
    requires InstallsAt(start, run, i, version) && InstallsAt(start, run, j, version)
    ensures i == j
  {
    hide Passed, DecisionOf, WorldBefore, Orphans;
    if i < j {
      NeverInstalledTwice(start, run, i, j, version);
    } else if j < i {
      NeverInstalledTwice(start, run, j, i, version);
    }
  }

  lemma NotInstalledAgain(start: World, run: seq<Event>, i: nat, version: Version)
    requires i < |run| && NoOrphans(start, run, i + 1) && Settled(start, version)
    ensures !InstallsAt(start, run, i, version)
  {
    hide Passed, DecisionOf, Settled, Orphans;
    SettledThroughout(start, run, 0, i, version);
    SettledKept(WorldBefore(start, run, i), run[i], version);
  }

  /** A rollback enforces as soon as the marker is cleared, whatever it said and whatever fails after. */
  lemma RollbackEnforcesAtOnce(world: World, t: Event, running: Version, now: Instant)
    requires DecisionOf(world, t.seen).Rollback? && Done(t) >= 2
    ensures VerdictOf(Passed(world, t).soak, running, now).Enforcing?
  {
    hide SP.StepOf, Passed;
    EventFacts(world, t);
  }

  // ---- What a process dying in the middle of an install costs --------------------------------------------

  /** Newer than the running version or than the one a rollback goes to. */
  predicate Above(world: World, version: Version) {
    SP.IsNewer(version, world.running) || (world.lastGood.Some? && SP.IsNewer(version, world.lastGood.value))
  }

  /** Some other version could be put in over the one running. */
  predicate OtherUpgrade(world: World, universe: set<Version>, version: Version) {
    exists c :: c in universe && c !in world.quarantined && c != version && SP.IsNewer(c, world.running)
  }

  /**
    What the files alone say of whether a version can ever be installed from here: it is above
    the running version or the rollback target, and it is neither of them, or some other
    version could be put in and rolled back first.
   */
  predicate CanBeInstalled(world: World, universe: set<Version>, version: Version) {
    && version in universe && version !in world.quarantined && Above(world, version)
    && ((version != world.running && world.lastGood != Some(version)) || OtherUpgrade(world, universe, version))
  }

  lemma CannotStays(world: World, t: Event, universe: set<Version>, version: Version)
    requires !CanBeInstalled(world, universe, version) && forall v :: v in t.seen.staged ==> v in universe
    ensures DecisionOf(world, t.seen) != SP.Install(version)
    ensures !CanBeInstalled(Passed(world, t), universe, version)
  {
    hide SP.StepOf, Passed, SP.IsNewer;
    var next, d := Passed(world, t), DecisionOf(world, t.seen);
    EventFacts(world, t);
    Targets(world, t.seen);
    SP.NewerIrreflexive(version);
    if d.Install? {
      if SP.IsNewer(version, d.version) {
        NewerThanInstalled(version, d.version, world.running);
      }
      if version == world.running && world.lastGood.Some? && SP.IsNewer(version, world.lastGood.value) {
        assert OtherUpgrade(world, universe, version) by { assert d.version in universe; }
      }
      if world.lastGood == Some(version) {
        assert OtherUpgrade(world, universe, version) by { assert d.version in universe; }
      }
    }
  }

  lemma {:induction false} CannotThroughout(
      start: World, run: seq<Event>, universe: set<Version>, version: Version, n: nat)
    requires n <= |run| && InUniverse(run, universe) && !CanBeInstalled(start, universe, version)
    ensures !CanBeInstalled(WorldBefore(start, run, n), universe, version)
  {
    hide Passed, CanBeInstalled;
    if n > 0 {
      CannotThroughout(start, run, universe, version, n - 1);
      CannotStays(WorldBefore(start, run, n - 1), run[n - 1], universe, version);
    }
  }

  /** Some run from here installs the version. */
  ghost predicate SomeRunInstalls(start: World, universe: set<Version>, version: Version) {
    exists run, n: nat :: n < |run| && InUniverse(run, universe) && InstallsAt(start, run, n, version)
  }

  lemma {:induction false} RunAfter(start: World, t: Event, run: seq<Event>, n: nat)
    requires n <= |run|
    ensures WorldBefore(start, [t] + run, n + 1) == WorldBefore(Passed(start, t), run, n)
  {
    hide Passed;
    if n > 0 {
      RunAfter(start, t, run, n - 1);
      assert ([t] + run)[n] == run[n - 1];
    } else {
      assert WorldBefore(start, [t] + run, 0) == start;
    }
  }

  lemma AfterOneEvent(start: World, t: Event, universe: set<Version>, version: Version)
    requires SomeRunInstalls(Passed(start, t), universe, version) && forall v :: v in t.seen.staged ==> v in universe
    ensures SomeRunInstalls(start, universe, version)
  {
    hide Passed, PutsIn;
    var run, n: nat :| n < |run| && InUniverse(run, universe) && InstallsAt(Passed(start, t), run, n, version);
    RunAfter(start, t, run, n);
    assert ([t] + run)[n + 1] == run[n];
    assert InstallsAt(start, [t] + run, n + 1, version);
  }

  // ---- Such runs ---------------------------------------------------------------------------------------

  /** A healthy tick with nothing staged, after which the process is replaced. */
  const RESTART := Event(Observed(0, [], [], [], 0, true), Some(0))

  /** A new process past its cooldown finds one package and dies after so many writes. */
  function Offer(version: Version, now: Instant, writes: nat): Event {
    Event(Observed(now, [], [], [version], now - SP.KICKSTART_COOLDOWN, true), Some(writes))
  }

  /** A new process past its cooldown finds a crash loop, and the package to go back to. */
  function CrashLoop(lastGood: Version, now: Instant): Event {
    Event(Observed(now, [], [now, now, now], [lastGood], now - SP.KICKSTART_COOLDOWN, true), Some(ALL_WRITES))
  }

  lemma Restarted(world: World)
    ensures Passed(world, RESTART) == world.(policy := SP.INITIAL)
  {
    hide SP.StepOf;
  }

  lemma OfferTaken(world: World, version: Version, now: Instant, writes: nat)
    requires world.policy == SP.INITIAL && writes >= 1
    requires version !in world.quarantined && SP.IsNewer(version, world.running) && world.lastGood != Some(version)
    ensures PutsIn(world, Offer(version, now, writes), version)
    ensures var next := Passed(world, Offer(version, now, writes));
            && next.policy == SP.INITIAL && next.running == version && next.quarantined == world.quarantined
            && next.lastGood == (if writes == 1 then world.lastGood else Some(world.running))
  {
    var t := Offer(version, now, writes);
    SP.NewerIrreflexive(version);
    assert DecisionOf(world, t.seen).Install? by {
      hide SP.IsNewer, SP.OldestFirst;
      var candidates := SP.Candidates(InputsOf(world, t.seen), [version]);
      assert version in [version] && version in candidates;
      SP.OldestFirstEndsNewest(candidates);
    }
    hide SP.StepOf, SP.IsNewer;
    Targets(world, t.seen);
    EventFacts(world, t);
  }

  lemma CrashLoopRollsBack(world: World, now: Instant)
    requires world.policy == SP.INITIAL && world.lastGood.Some? && world.lastGood.value != world.running
    ensures var next := Passed(world, CrashLoop(world.lastGood.value, now));
            && next.policy == SP.INITIAL && next.running == world.lastGood.value && next.lastGood == world.lastGood
            && next.quarantined == world.quarantined + {world.running}
  {
    var t := CrashLoop(world.lastGood.value, now);
    SP.ThreeCrashes(now);
    assert DecisionOf(world, t.seen).Rollback?;
    hide SP.StepOf;
    Targets(world, t.seen);
    EventFacts(world, t);
  }

  predicate Known(world: World, universe: set<Version>) {
    world.running in universe && (world.lastGood.Some? ==> world.lastGood.value in universe)
  }

  lemma OfferEnds(world: World, universe: set<Version>, version: Version)
    requires world.policy == SP.INITIAL && version in universe && version !in world.quarantined
    requires SP.IsNewer(version, world.running) && world.lastGood != Some(version)
    ensures SomeRunInstalls(world, universe, version)
  {
    var t := Offer(version, 0, ALL_WRITES);
    OfferTaken(world, version, 0, ALL_WRITES);
    assert WorldBefore(world, [t], 0) == world;
    assert InstallsAt(world, [t], 0, version) && InUniverse([t], universe);
  }

  /** Straight away, or after one rollback. */
  lemma InstalledDirectly(world: World, universe: set<Version>, version: Version)
    requires world.policy == SP.INITIAL && Known(world, universe) && version in universe
    requires version !in world.quarantined && Above(world, version)
    requires version != world.running && world.lastGood != Some(version)
    ensures SomeRunInstalls(world, universe, version)
  {
    hide SomeRunInstalls, Passed;
    if SP.IsNewer(version, world.running) {
      OfferEnds(world, universe, version);
    } else {
      CrashLoopRollsBack(world, 0);
      OfferEnds(Passed(world, CrashLoop(world.lastGood.value, 0)), universe, version);
      AfterOneEvent(world, CrashLoop(world.lastGood.value, 0), universe, version);
    }
  }

  /**
    Another version goes in first and is rolled back: over the version itself, when it is
    running, by a process that dies before the record; or over one the version was last good for.
   */
  lemma InstalledAfterAnother(world: World, universe: set<Version>, version: Version)
    requires world.policy == SP.INITIAL && Known(world, universe) && version in universe
    requires version !in world.quarantined && Above(world, version) && OtherUpgrade(world, universe, version)
    requires version == world.running || world.lastGood == Some(version)
    ensures SomeRunInstalls(world, universe, version)
  {
    hide SomeRunInstalls, Passed, SP.IsNewer;
    SP.NewerIrreflexive(version);
    var c :| c in universe && c !in world.quarantined && c != version && SP.IsNewer(c, world.running);
    SP.NewerIrreflexive(c);
    if version == world.running && world.lastGood == Some(c) {
      NewerThanInstalled(c, version, c);
    }
    var t := Offer(c, 0, if version == world.running then 1 else ALL_WRITES);
    OfferTaken(world, c, 0, t.dies.value);
    var over := Passed(world, t);
    CrashLoopRollsBack(over, 0);
    var back := Passed(over, CrashLoop(over.lastGood.value, 0));
    OfferEnds(back, universe, version);
    AfterOneEvent(over, CrashLoop(over.lastGood.value, 0), universe, version);
    AfterOneEvent(world, t, universe, version);
  }

  /**
    From any files, whether some run still installs a version, restarted, failing and cut short
    as it may be, can be read off the files.
   */
  lemma CanBeInstalledExactly(world: World, universe: set<Version>, version: Version)
    requires Known(world, universe)
    ensures SomeRunInstalls(world, universe, version) <==> CanBeInstalled(world, universe, version)
  {
    hide Passed, Above, OtherUpgrade;
    if CanBeInstalled(world, universe, version) {
      hide SomeRunInstalls;
      var again := world.(policy := SP.INITIAL);
      Restarted(world);
      SameFiles(world, again, universe, version);
      if version != world.running && world.lastGood != Some(version) {
        InstalledDirectly(again, universe, version);
      } else {
        InstalledAfterAnother(again, universe, version);
      }
      AfterOneEvent(world, RESTART, universe, version);
    } else if run, n: nat :| n < |run| && InUniverse(run, universe) && InstallsAt(world, run, n, version) {
      hide CanBeInstalled;
      CannotThroughout(world, run, universe, version, n);
      CannotStays(WorldBefore(world, run, n), run[n], universe, version);
    }
  }

  lemma SameFiles(world: World, again: World, universe: set<Version>, version: Version)
    requires again == world.(policy := world.policy) || again == world.(policy := SP.INITIAL)
    ensures Above(again, version) == Above(world, version)
    ensures OtherUpgrade(again, universe, version) == OtherUpgrade(world, universe, version)
  {
  }

  /**
    So a version already put in, with no orphan so far, can come back exactly when it is running
    above the rollback target and something could still be put in over it.
   */
  lemma InstalledAgainExactly(
      start: World, run: seq<Event>, universe: set<Version>, i: nat, n: nat, version: Version)
    requires i < n <= |run| && NoOrphans(start, run, n) && InstallsAt(start, run, i, version)
    requires version in universe && Known(WorldBefore(start, run, n), universe)
    ensures var world := WorldBefore(start, run, n);
            SomeRunInstalls(world, universe, version)
            <==> && version == world.running && version !in world.quarantined
                 && world.lastGood.Some? && SP.IsNewer(version, world.lastGood.value)
                 && OtherUpgrade(world, universe, version)
  {
    hide Passed, OtherUpgrade, SomeRunInstalls, SP.IsNewer, WorldBefore, PutsIn, Orphans;
    InstalledSettles(start, run, i, n, version);
    var world := WorldBefore(start, run, n);
    CanBeInstalledExactly(world, universe, version);
    SP.NewerIrreflexive(version);
  }

  lemma InstalledSettles(start: World, run: seq<Event>, i: nat, n: nat, version: Version)
    requires i < n <= |run| && NoOrphans(start, run, n) && InstallsAt(start, run, i, version)
    ensures Settled(WorldBefore(start, run, n), version)
  {
    hide Passed, Settled, PutsIn, Orphans;
    InstalledIsSettled(WorldBefore(start, run, i), run[i], version);
    SettledThroughout(start, run, i + 1, n, version);
  }

  /**
    What one such death does: of the versions that could not be installed any more it opens
    exactly the one replaced, when that is above the rollback target it has not replaced.
   */
  lemma OrphanUnsettlesExactly(world: World, t: Event, version: Version)
    requires Orphans(world, t) && Settled(world, version)
    ensures Settled(Passed(world, t), version)
            <==> !(&& version == world.running && version !in world.quarantined
                   && world.lastGood.Some? && SP.IsNewer(version, world.lastGood.value))
  {
    hide SP.StepOf, Passed, SP.IsNewer;
    var next, c := Passed(world, t), DecisionOf(world, t.seen).version;
    EventFacts(world, t);
    Targets(world, t.seen);
    SP.NewerIrreflexive(version);
    SP.NewerIrreflexive(c);
    if SP.IsNewer(version, c) {
      NewerThanInstalled(version, c, world.running);
    }
    if version == world.running && SP.IsNewer(version, c) {
      NewerThanInstalled(version, c, version);
    }
    if world.lastGood == Some(c) && SP.IsNewer(version, c) {
      NewerThanInstalled(version, c, world.running);
    }
  }

  /** An orphan, the rollback of what it put in, and the version it replaced found again. */
  function OrphanRun(a: Version, b: Version, c: Version): seq<Event> {
    [Offer(c, HOUR, 1), CrashLoop(a, 2 * HOUR), Offer(b, 35 * HOUR, ALL_WRITES)]
  }

  /** One hour into its soak, `b` is replaced by `c` and the power fails before the record; it soaks all over again. */
  lemma OrphanSoaksTwice(a: Version, b: Version, c: Version)
    requires SP.IsNewer(b, a) && SP.IsNewer(c, b)
    ensures var start, run := World(SP.INITIAL, b, Some(a), {}, Some(Begin(b, 0)), {}), OrphanRun(a, b, c);
            && StartsSettled(start)
            && InstallsAt(start, run, 0, c) && InstallsAt(start, run, 2, b)
            && WorldBefore(start, run, 3).running == b
            && ShadowsAt(start, run, 0, 0) && ShadowsAt(start, run, 3, 70 * HOUR)
  {
    hide SP.StepOf, SP.IsNewer;
    var start, run := World(SP.INITIAL, b, Some(a), {}, Some(Begin(b, 0)), {}), OrphanRun(a, b, c);
    SP.NewerIrreflexive(a);
    SP.NewerIrreflexive(b);
    SP.NewerIrreflexive(c);
    NewerThanInstalled(c, b, a);
    assert WorldBefore(start, run, 0) == start;
    var orphaned := OrphanedWorld(start, c);
    var back := RolledBackWorld(orphaned, a);
    OfferTaken(back, b, 35 * HOUR, ALL_WRITES);
    WholeTick(back, run[2]);
    Steps(start, run, orphaned, back);
  }

  lemma Steps(start: World, run: seq<Event>, second: World, third: World)
    requires |run| == 3 && second == Passed(start, run[0]) && third == Passed(second, run[1])
    ensures WorldBefore(start, run, 1) == second && WorldBefore(start, run, 2) == third
    ensures WorldBefore(start, run, 3) == Passed(third, run[2])
  {
    hide Passed;
    assert WorldBefore(start, run, 0) == start;
  }

  lemma OrphanedWorld(world: World, c: Version) returns (next: World)
    requires world.policy == SP.INITIAL && c !in world.quarantined && c !in world.soaked
    requires SP.IsNewer(c, world.running) && world.lastGood != Some(c)
    ensures next == Passed(world, Offer(c, HOUR, 1)) && next == world.(running := c)
    ensures PutsIn(world, Offer(c, HOUR, 1), c)
  {
    next := Passed(world, Offer(c, HOUR, 1));
    OfferTaken(world, c, HOUR, 1);
    hide SP.StepOf, SP.IsNewer;
    var writes := WritesOf(world, Offer(c, HOUR, 1).seen);
    assert writes[0] == Replace(c);
    assert AfterFirst(world, writes, 1) == AfterFirst(Written(world, writes[0]), writes[1..], 0);
  }

  lemma RolledBackWorld(world: World, a: Version) returns (next: World)
    requires world.policy == SP.INITIAL && world.lastGood == Some(a) && a != world.running
    ensures next == Passed(world, CrashLoop(a, 2 * HOUR))
    ensures next == world.(running := a, quarantined := world.quarantined + {world.running}, soak := None)
  {
    next := Passed(world, CrashLoop(a, 2 * HOUR));
    CrashLoopRollsBack(world, 2 * HOUR);
    WholeTick(world, CrashLoop(a, 2 * HOUR));
    SP.ThreeCrashes(2 * HOUR);
    assert DecisionOf(world, CrashLoop(a, 2 * HOUR).seen).Rollback?;
    hide SP.StepOf;
    Targets(world, CrashLoop(a, 2 * HOUR).seen);
  }
}
