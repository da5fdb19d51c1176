/**
  Every decision the supervisor makes: when to roll back, when to install, and when to
  do nothing, loudly.
 */
module SupervisorPolicy {
  import opened Basics
  import opened Sorting

  type Job = string

  const HEALTH_STALE_AFTER: Duration := 300 * SECOND
  const CRASH_WINDOW: Duration := 300 * SECOND
  const CRASHES_FOR_ROLLBACK := 3
  const KICKSTART_COOLDOWN: Duration := 600 * SECOND
  const MAX_ROLLBACKS_PER_24H := 3
  const STALE_CONFIRMATIONS := 2

  // ---- Version order ------------------------------------------------------------------------------

  predicate AllDigits(text: string) {
    forall i :: 0 <= i < |text| ==> '0' <= text[i] <= '9'
  }

  function DigitsValue(digits: string): int
    requires AllDigits(digits)
  {
    if digits == "" then 0
    else 10 * DigitsValue(digits[..|digits| - 1]) + (digits[|digits| - 1] as int - '0' as int)
  }

  /** One component: a signed 64-bit decimal, or 0 when it is not one. */
  function Component(text: string): int {
    if text == "" then 0
    else
      var signed := text[0] == '-' || text[0] == '+';
      var digits := if signed then text[1..] else text;
      if digits == "" || !AllDigits(digits) then 0
      else
        var value: int := if text[0] == '-' then -DigitsValue(digits) else DigitsValue(digits);
        if -0x8000_0000_0000_0000 <= value < 0x8000_0000_0000_0000 then value else 0
  }

  function DotAt(text: string, from: nat): (i: nat)
    requires from <= |text|
    ensures from <= i <= |text|
    decreases |text| - from
  {
    if from == |text| || text[from] == '.' then from else DotAt(text, from + 1)
  }

  /** The dotted components; empty ones are skipped. */
  function Components(version: Version): seq<int>
    decreases |version|
  {
    if version == "" then []
    else
      var dot := DotAt(version, 0);
      var rest := if dot < |version| then Components(version[dot + 1..]) else [];
      if dot == 0 then rest else [Component(version[..dot])] + rest
  }

  /** A missing component compares as 0. */
  function Padded(parts: seq<int>, i: nat): int {
    if i < |parts| then parts[i] else 0
  }

  predicate NewerFrom(left: seq<int>, right: seq<int>, i: nat)
    decreases Max(|left|, |right|) - i
  {
    if i >= Max(|left|, |right|) then false
    else if Padded(left, i) != Padded(right, i) then Padded(left, i) > Padded(right, i)
    else NewerFrom(left, right, i + 1)
  }

  predicate IsNewer(lhs: Version, rhs: Version) {
    NewerFrom(Components(lhs), Components(rhs), 0)
  }

  lemma {:induction false} NewerOneWay(a: seq<int>, b: seq<int>, i: nat)
    requires NewerFrom(a, b, i)
    ensures !NewerFrom(b, a, i)
    decreases Max(|a|, |b|) - i
  {
    if Padded(a, i) == Padded(b, i) {
      NewerOneWay(a, b, i + 1);
    }
  }

  lemma {:induction false} NewerSplits(a: seq<int>, b: seq<int>, c: seq<int>, i: nat)
    requires NewerFrom(a, c, i)
    ensures NewerFrom(a, b, i) || NewerFrom(b, c, i)
    decreases Max(|a|, Max(|b|, |c|)) - i
  {
    if Padded(a, i) == Padded(c, i) {
      NewerSplits(a, b, c, i + 1);
    }
  }

  /** Zero padding makes "newer" a strict weak order on version strings. */
  lemma NewerIsStrictWeak()
    ensures StrictWeak((a: Version, b: Version) => IsNewer(a, b))
    ensures StrictWeak((a: Version, b: Version) => IsNewer(b, a))
  {
    forall a: Version, b: Version | IsNewer(a, b) ensures !IsNewer(b, a) {
      NewerOneWay(Components(a), Components(b), 0);
    }
    forall a: Version, b: Version, c: Version | IsNewer(a, c) ensures IsNewer(a, b) || IsNewer(b, c) {
      NewerSplits(Components(a), Components(b), Components(c), 0);
    }
  }

  lemma NewerTransitive(a: Version, b: Version, c: Version)
    requires IsNewer(a, b) && !IsNewer(c, b)
    ensures IsNewer(a, c)
  {
    NewerSplits(Components(a), Components(c), Components(b), 0);
  }

  lemma NewerIrreflexive(a: Version)
    ensures !IsNewer(a, a)
  {
    if IsNewer(a, a) {
      NewerOneWay(Components(a), Components(a), 0);
    }
  }

  /** The first component to differ decides, a missing one standing as 0. */
  predicate ExceedsFirst(left: seq<int>, right: seq<int>, i: nat) {
    exists k :: i <= k < Max(|left|, |right|) && Padded(left, k) > Padded(right, k)
                && forall j :: i <= j < k ==> Padded(left, j) == Padded(right, j)
  }

  lemma {:induction false} NewerFromExactly(left: seq<int>, right: seq<int>, i: nat)
    ensures NewerFrom(left, right, i) <==> ExceedsFirst(left, right, i)
    decreases Max(|left|, |right|) - i
  {
    hide Padded;
    if i < Max(|left|, |right|) {
      NewerFromExactly(left, right, i + 1);
      if Padded(left, i) != Padded(right, i) {
        assert ExceedsFirst(left, right, i) <==> Padded(left, i) > Padded(right, i);
      } else {
        assert ExceedsFirst(left, right, i) <==> ExceedsFirst(left, right, i + 1);
      }
    }
  }

  /** What is past the first dot. */
  function Rest(text: string, dot: nat): seq<int> {
    if dot < |text| then Components(text[dot + 1..]) else []
  }

  /** The text before the first dot, then the rest past it. */
  lemma FirstComponent(text: string, dot: nat)
    requires text != "" && dot == DotAt(text, 0)
    ensures Components(text)
            == if dot == 0 then Rest(text, dot) else [Component(text[..dot])] + Rest(text, dot)
  {
    hide Component, DotAt, DigitsValue, AllDigits;
  }

  /** Dots join: the components of two texts with a dot between are those of the one, then of the other. */
  lemma {:induction false} ComponentsJoin(a: string, b: string)
    ensures Components(a + "." + b) == Components(a) + Components(b)
    decreases |a|
  {
    hide Component, Components;
    var joined, dot := a + "." + b, DotAt(a, 0);
    DotOfPrefix(a, "." + b, 0);
    assert joined == a + ("." + b);
    FirstComponent(joined, dot);
    if a == "" {
      NoComponents();
      assert joined[1..] == b;
    } else {
      FirstComponent(a, dot);
      assert joined[..dot] == a[..dot];
      if dot < |a| {
        ComponentsJoin(a[dot + 1..], b);
        assert joined[dot + 1..] == a[dot + 1..] + "." + b;
      } else {
        assert joined[|a| + 1..] == b;
      }
      assert Rest(joined, dot) == Rest(a, dot) + Components(b);
      hide Rest;
    }
  }

  lemma NoComponents()
    ensures Components("") == []
  {
  }

  lemma {:induction false} DotIsFirst(text: string, from: nat)
    requires from <= |text|
    ensures var i := DotAt(text, from);
            (i < |text| ==> text[i] == '.') && forall j :: from <= j < i ==> text[j] != '.'
    decreases |text| - from
  {
    if from < |text| && text[from] != '.' {
      DotIsFirst(text, from + 1);
    }
  }

  lemma {:induction false} DotOfPrefix(a: string, rest: string, from: nat)
    requires from <= |a| && rest != "" && rest[0] == '.'
    ensures DotAt(a + rest, from) == DotAt(a, from)
    decreases |a| - from
  {
    if from < |a| && a[from] != '.' {
      DotOfPrefix(a, rest, from + 1);
    }
  }

  /** A text without a dot is one component, and no component when empty. */
  lemma ComponentAlone(text: string)
    requires forall i :: 0 <= i < |text| ==> text[i] != '.'
    ensures Components(text) == if text == "" then [] else [Component(text)]
  {
    DotIsFirst(text, 0);
    assert text[..|text|] == text;
  }

  function PowerOfTen(n: nat): nat {
    if n == 0 then 1 else 10 * PowerOfTen(n - 1)
  }

  lemma {:induction false} DigitsBelowPower(digits: string)
    requires AllDigits(digits)
    ensures 0 <= DigitsValue(digits) < PowerOfTen(|digits|)
    ensures digits != "" && digits[0] != '0' ==> DigitsValue(digits) >= PowerOfTen(|digits| - 1)
  {
    if digits != "" {
      DigitsBelowPower(digits[..|digits| - 1]);
    }
  }

  lemma {:induction false} PowersGrow(m: nat, n: nat)
    requires m <= n
    ensures PowerOfTen(m) <= PowerOfTen(n)
  {
    if m < n {
      PowersGrow(m, n - 1);
    }
  }

  /** Less in the first digit that differs. */
  predicate DigitsLess(a: string, b: string) {
    |a| == |b| && exists k :: 0 <= k < |a| && a[..k] == b[..k] && a[k] < b[k]
  }

  lemma DigitsLessNext(a: string, b: string)
    requires |a| == |b| && a != ""
    ensures var n := |a| - 1;
            DigitsLess(a, b) <==> DigitsLess(a[..n], b[..n]) || (a[..n] == b[..n] && a[n] < b[n])
  {
    var n := |a| - 1;
    assert forall k :: 0 <= k <= n ==> a[..n][..k] == a[..k] && b[..n][..k] == b[..k];
    if DigitsLess(a[..n], b[..n]) {
      var k :| 0 <= k < n && a[..n][..k] == b[..n][..k] && a[..n][k] < b[..n][k];
      assert a[..k] == b[..k] && a[k] < b[k];
    }
    if DigitsLess(a, b) {
      var k :| 0 <= k < |a| && a[..k] == b[..k] && a[k] < b[k];
      if k < n {
        assert a[..n][..k] == b[..n][..k] && a[..n][k] < b[..n][k];
      }
    }
  }

  lemma DigitsValueNext(digits: string)
    requires AllDigits(digits) && digits != ""
    ensures var front, last := digits[..|digits| - 1], digits[|digits| - 1];
            AllDigits(front) && '0' <= last <= '9'
            && DigitsValue(digits) == 10 * DigitsValue(front) + (last as int - '0' as int)
  {
  }

  lemma {:induction false} SameLengthOrder(a: string, b: string)
    requires AllDigits(a) && AllDigits(b) && |a| == |b|
    ensures DigitsValue(a) < DigitsValue(b) <==> DigitsLess(a, b)
    ensures DigitsValue(a) == DigitsValue(b) <==> a == b
  {
    if a != "" {
      var n := |a| - 1;
      DigitsValueNext(a);
      DigitsValueNext(b);
      SameLengthOrder(a[..n], b[..n]);
      DigitsLessNext(a, b);
      hide DigitsLess, DigitsValue, AllDigits;
      assert a == a[..n] + [a[n]] && b == b[..n] + [b[n]];
    }
  }

  /**
    Components compare as numbers, not as text: of two without leading zeros the longer is the
    greater, and of two as long the one greater in the first digit that differs.
   */
  lemma NumericOrder(a: string, b: string)
    requires AllDigits(a) && AllDigits(b) && a != "" && b != "" && a[0] != '0' && b[0] != '0'
    ensures DigitsValue(a) < DigitsValue(b) <==> |a| < |b| || DigitsLess(a, b)
  {
    hide DigitsValue, PowerOfTen;
    DigitsBelowPower(a);
    DigitsBelowPower(b);
    hide AllDigits;
    if |a| < |b| {
      PowersGrow(|a|, |b| - 1);
    } else if |b| < |a| {
      PowersGrow(|b|, |a| - 1);
    } else {
      SameLengthOrder(a, b);
    }
  }

  /** A number of twenty digits or more does not fit, and reads as 0. */
  lemma TooLongReadsAsZero(digits: string)
    requires AllDigits(digits) && |digits| >= 20 && digits[0] != '0'
    ensures Component(digits) == Component("-" + digits) == 0
  {
    DigitsBelowPower(digits);
    PowersGrow(19, |digits| - 1);
    TenToTheNineteenth();
    assert ("-" + digits)[1..] == digits;
  }

  /** A number that fits reads as itself, with a sign or without one, and any other text as 0. */
  lemma ReadsAsItself(digits: string)
    requires digits != ""
    ensures AllDigits(digits) && DigitsValue(digits) < 0x8000_0000_0000_0000 ==>
              && Component(digits) == Component("+" + digits) == DigitsValue(digits)
              && Component("-" + digits) == -DigitsValue(digits)
    ensures !AllDigits(digits) ==> Component("+" + digits) == Component("-" + digits) == 0
    ensures !AllDigits(digits) && digits[0] !in "+-" ==> Component(digits) == 0
  {
    assert ("-" + digits)[1..] == ("+" + digits)[1..] == digits;
    if AllDigits(digits) {
      DigitsBelowPower(digits);
    }
  }

  lemma TenToTheNineteenth()
    ensures PowerOfTen(19) == 10_000_000_000_000_000_000
  {
    assert PowerOfTen(5) == 100_000;
    assert PowerOfTen(10) == 10_000_000_000;
    assert PowerOfTen(15) == 1_000_000_000_000_000;
  }

  /** No component says anything: each is 0, or cannot be read and compares as 0. */
  predicate Unreadable(version: Version) {
    forall k :: 0 <= k < |Components(version)| ==> Components(version)[k] == 0
  }

  /** From `i` on, the first component that is not 0 is negative. */
  predicate NegativeFrom(parts: seq<int>, i: nat) {
    exists k :: i <= k < |parts| && parts[k] < 0 && forall j :: i <= j < k ==> parts[j] == 0
  }

  lemma {:induction false} ZerosNewerExactly(a: seq<int>, b: seq<int>, i: nat)
    requires forall k :: 0 <= k < |a| ==> a[k] == 0
    ensures NewerFrom(a, b, i) <==> NegativeFrom(b, i)
    decreases Max(|a|, |b|) - i
  {
    if i < Max(|a|, |b|) {
      ZerosNewerExactly(a, b, i + 1);
      if i < |b| && b[i] != 0 {
        assert NegativeFrom(b, i) <==> b[i] < 0;
      } else {
        assert NegativeFrom(b, i) <==> NegativeFrom(b, i + 1);
      }
    }
  }

  /**
    A version that cannot be read is newer than another exactly when that one's first
    component other than 0 is negative; over any other it never installs itself.
   */
  lemma UnreadableIsNewerExactly(unreadable: Version, running: Version)
    requires Unreadable(unreadable)
    ensures IsNewer(unreadable, running) <==> NegativeFrom(Components(running), 0)
  {
    ZerosNewerExactly(Components(unreadable), Components(running), 0);
  }

  /** "x" is newer than "-1". */
  lemma UnreadableBeatsNegative()
    ensures Unreadable("x") && IsNewer("x", "-1")
  {
    assert DotAt("x", 0) == 1 && DotAt("-1", 0) == 2;
    assert "x"[..1] == "x" && "-1"[..2] == "-1" && "-1"[1..] == "1" && "1"[..0] == "";
    assert DigitsValue("1") == 1;
    assert Components("x") == [0] && Components("-1") == [-1];
    assert Components("-1")[0] < 0;
    UnreadableIsNewerExactly("x", "-1");
  }

  // ---- The decision -------------------------------------------------------------------------------

  datatype Health = Health(job: Job, writtenAt: Option<Instant>, lastDecision: Option<string>)

  datatype State = State(
    consecutiveStale: map<Job, nat>,
    lastKickstartAt: Option<Instant>,
    rollbacksInWindow: seq<Instant>)

  const INITIAL := State(map[], None, [])

  datatype Inputs = Inputs(
    running: Version,
    health: seq<Health>,
    recentCrashes: seq<Instant>,
    staged: seq<Version>,
    lastGood: Option<Version>,
    quarantined: set<Version>,
    bootedAt: Instant)

  datatype RollbackReason = HealthStale | CrashLoop

  datatype ReportReason =
    | UnhealthyInCooldown
    | RollbackBudgetExhausted
    | NoRollbackTarget
    | DeferredUnhealthy
    | DeferredCooldown
    | DeferredEnforcing

  datatype Decision =
    | Idle
    | Install(version: Version)
    | Rollback(to: Version, quarantine: Version, reason: RollbackReason)
    | Report(why: ReportReason)
  {
    /** The decision restarts the enforcer. */
    predicate Kickstarts() {
      Install? || Rollback?
    }
  }

  datatype Result = Result(decision: Decision, state: State)

  /** A file from the future is not stale; a missing one is. */
  predicate IsStale(health: Health, now: Instant) {
    health.writtenAt.None? || now - health.writtenAt.value > HEALTH_STALE_AFTER
  }

  function Count(counts: map<Job, nat>, job: Job): nat {
    if job in counts then counts[job] else 0
  }

  datatype Scan = Scan(counts: map<Job, nat>, confirmed: seq<Job>, anyStale: bool)

  function ScanHealth(health: seq<Health>, counts: map<Job, nat>, now: Instant): Scan {
    if health == [] then Scan(counts, [], false)
    else
      var s, h := ScanHealth(health[..|health| - 1], counts, now), health[|health| - 1];
      var count := if IsStale(h, now) then Count(s.counts, h.job) + 1 else 0;
      Scan(s.counts[h.job := count],
           if count >= STALE_CONFIRMATIONS then s.confirmed + [h.job] else s.confirmed,
           s.anyStale || IsStale(h, now))
  }

  function CrashesInWindow(crashes: seq<Instant>, now: Instant): seq<Instant> {
    if crashes == [] then []
    else
      var front, last := CrashesInWindow(crashes[..|crashes| - 1], now), crashes[|crashes| - 1];
      if now - last <= CRASH_WINDOW then front + [last] else front
  }

  predicate InCooldown(state: State, bootedAt: Instant, now: Instant) {
    || (state.lastKickstartAt.Some? && now - state.lastKickstartAt.value < KICKSTART_COOLDOWN)
    || now - bootedAt < KICKSTART_COOLDOWN
  }

  /** Strictly newer, and never the rollback target or a quarantined version. */
  predicate IsCandidate(inputs: Inputs, version: Version) {
    && version != inputs.running
    && Some(version) != inputs.lastGood
    && version !in inputs.quarantined
    && IsNewer(version, inputs.running)
  }

  function Candidates(inputs: Inputs, staged: seq<Version>): (r: seq<Version>)
    ensures forall v :: v in r <==> v in staged && IsCandidate(inputs, v)
  {
    if staged == [] then []
    else
      var front, last := Candidates(inputs, staged[..|staged| - 1]), staged[|staged| - 1];
      assert staged == staged[..|staged| - 1] + [last];
      if IsCandidate(inputs, last) then front + [last] else front
  }

  function OldestFirst(versions: seq<Version>): seq<Version> {
    Sort((a: Version, b: Version) => IsNewer(b, a), versions)
  }

  predicate IsEnforcing(health: seq<Health>) {
    exists h :: h in health && h.job == "enforcer"
      && (h.lastDecision == Some("lock") || h.lastDecision == Some("shutdown"))
  }

  function RollbackOf(inputs: Inputs, state: State, scan: Scan, now: Instant): Result {
    if InCooldown(state, inputs.bootedAt, now) then Result(Report(UnhealthyInCooldown), state)
    else if |state.rollbacksInWindow| >= MAX_ROLLBACKS_PER_24H then Result(Report(RollbackBudgetExhausted), state)
    else if inputs.lastGood.None? || inputs.lastGood.value == inputs.running
            || inputs.lastGood.value !in inputs.staged then
      Result(Report(NoRollbackTarget), state)
    else
      Result(Rollback(inputs.lastGood.value, inputs.running, if scan.confirmed == [] then CrashLoop else HealthStale),
             State(map[], Some(now), state.rollbacksInWindow + [now]))
  }

  function UpgradeOf(inputs: Inputs, state: State, unhealthy: bool, now: Instant): Result {
    var candidates := OldestFirst(Candidates(inputs, inputs.staged));
    if candidates == [] then Result(Idle, state)
    else if unhealthy then Result(Report(DeferredUnhealthy), state)
    else if InCooldown(state, inputs.bootedAt, now) then Result(Report(DeferredCooldown), state)
    else if IsEnforcing(inputs.health) then Result(Report(DeferredEnforcing), state)
    else Result(Install(candidates[|candidates| - 1]), state.(lastKickstartAt := Some(now)))
  }

  /** One decision as a function of its inputs: the specification of `Step`. */
  function StepOf(inputs: Inputs, incoming: State, now: Instant): Result {
    var scan := ScanHealth(inputs.health, incoming.consecutiveStale, now);
    var state := incoming.(rollbacksInWindow := WithinDay(incoming.rollbacksInWindow, now),
                           consecutiveStale := scan.counts);
    var crashes := CrashesInWindow(inputs.recentCrashes, now);
    if scan.confirmed != [] || |crashes| >= CRASHES_FOR_ROLLBACK then RollbackOf(inputs, state, scan, now)
    else UpgradeOf(inputs, state, scan.anyStale || crashes != [], now)
  }

  method Step(inputs: Inputs, incoming: State, now: Instant) returns (result: Result)
    ensures result == StepOf(inputs, incoming, now)
  {
    // Only the last day's roll-backs count against the cap.
    var state := incoming.(rollbacksInWindow := WithinDay(incoming.rollbacksInWindow, now));

    // A job is stale once it has read stale twice running.
    var staleJobs: seq<Job> := [];
    var anyStaleNow := false;
    for i := 0 to |inputs.health|
      invariant state == incoming.(rollbacksInWindow := WithinDay(incoming.rollbacksInWindow, now),
                                   consecutiveStale := state.consecutiveStale)
      invariant Scan(state.consecutiveStale, staleJobs, anyStaleNow)
                == ScanHealth(inputs.health[..i], incoming.consecutiveStale, now)
    {
      var health := inputs.health[i];
      assert inputs.health[..i + 1] == inputs.health[..i] + [health];
      var stale := IsStale(health, now);
      if stale { anyStaleNow := true; }
      var count := if stale then Count(state.consecutiveStale, health.job) + 1 else 0;
      state := state.(consecutiveStale := state.consecutiveStale[health.job := count]);
      if count >= STALE_CONFIRMATIONS { staleJobs := staleJobs + [health.job]; }
    }
    assert inputs.health[..|inputs.health|] == inputs.health;

    var crashes := CrashesInWindow(inputs.recentCrashes, now);
    var needsRollback := staleJobs != [] || |crashes| >= CRASHES_FOR_ROLLBACK;
    var inCooldown := InCooldown(state, inputs.bootedAt, now);

    if needsRollback {
      if inCooldown {
        return Result(Report(UnhealthyInCooldown), state);
      }
      if |state.rollbacksInWindow| >= MAX_ROLLBACKS_PER_24H {
        return Result(Report(RollbackBudgetExhausted), state);
      }
      if inputs.lastGood.None? || inputs.lastGood.value == inputs.running
         || inputs.lastGood.value !in inputs.staged
      {
        return Result(Report(NoRollbackTarget), state);
      }
      var lastGood := inputs.lastGood.value;
      state := State(map[], Some(now), state.rollbacksInWindow + [now]);
      return Result(Rollback(lastGood, inputs.running, if staleJobs == [] then CrashLoop else HealthStale), state);
    }

    var candidates := OldestFirst(Candidates(inputs, inputs.staged));
    if candidates == [] {
      return Result(Idle, state);
    }
    // One stale reading or one crash is enough to defer an upgrade.
    if anyStaleNow || crashes != [] {
      return Result(Report(DeferredUnhealthy), state);
    }
    if inCooldown {
      return Result(Report(DeferredCooldown), state);
    }
    if IsEnforcing(inputs.health) {
      return Result(Report(DeferredEnforcing), state);
    }
    state := state.(lastKickstartAt := Some(now));
    result := Result(Install(candidates[|candidates| - 1]), state);
  }

  /** The last version of the sorted order: one of them, and none of them newer. */
  lemma OldestFirstEndsNewest(versions: seq<Version>)
    requires versions != []
    ensures var sorted := OldestFirst(versions);
            && sorted != []
            && sorted[|sorted| - 1] in versions
            && forall u :: u in versions ==> !IsNewer(u, sorted[|sorted| - 1])
  {
    var before := (a: Version, b: Version) => IsNewer(b, a);
    var sorted := OldestFirst(versions);
    NewerIsStrictWeak();
    SortSorts(before, versions);
    SortKeepsRows(before, versions);
    assert versions[0] in multiset(versions) && versions[0] in multiset(sorted);
    var v := sorted[|sorted| - 1];
    assert v in multiset(sorted) && v in multiset(versions);
    forall u | u in versions ensures !IsNewer(u, v) {
      assert u in multiset(versions) && u in multiset(sorted);
      var i :| 0 <= i < |sorted| && sorted[i] == u;
      if i < |sorted| - 1 {
        assert !before(v, u);
      } else {
        NewerIrreflexive(u);
      }
    }
  }

  /** What an install promises: a staged candidate, and none of the others newer. */
  lemma InstallsNewestCandidate(inputs: Inputs, state: State, now: Instant)
    requires StepOf(inputs, state, now).decision.Install?
    ensures var v := StepOf(inputs, state, now).decision.version;
            && v in inputs.staged && IsCandidate(inputs, v)
            && forall u :: u in inputs.staged && IsCandidate(inputs, u) ==> !IsNewer(u, v)
  {
    hide IsCandidate, IsNewer, OldestFirst;
    var candidates := Candidates(inputs, inputs.staged);
    SortNothing();
    if candidates != [] {
      OldestFirstEndsNewest(candidates);
    }
  }

  lemma SortNothing()
    ensures OldestFirst([]) == []
  {
  }

  /** A rollback goes to a staged last-good version other than the one it quarantines. */
  lemma RollbackFacts(inputs: Inputs, state: State, now: Instant)
    requires StepOf(inputs, state, now).decision.Rollback?
    ensures var d := StepOf(inputs, state, now).decision;
            && inputs.lastGood == Some(d.to) && d.to in inputs.staged
            && d.quarantine == inputs.running && d.to != d.quarantine
  {
  }

  // ---- Exactly when it acts -----------------------------------------------------------------------

  /** A health file that is missing, or over five minutes old. */
  predicate Overdue(health: Health, now: Instant) {
    health.writtenAt.None? || now - health.writtenAt.value > 300 * SECOND
  }

  /** The job is mentioned at `j`, and not again before `k`. */
  predicate LastMentioned(health: seq<Health>, job: Job, j: nat, k: nat)
    requires j < k <= |health|
  {
    health[j].job == job && forall i :: j < i < k ==> health[i].job != job
  }

  /** What was last read of the job, among the first `k` files or else on earlier ticks, was overdue. */
  predicate WasOverdue(health: seq<Health>, counts: map<Job, nat>, now: Instant, job: Job, k: nat)
    requires k <= |health|
  {
    || (exists j :: 0 <= j < k && LastMentioned(health, job, j, k) && Overdue(health[j], now))
    || (Count(counts, job) >= 1 && forall j :: 0 <= j < k ==> health[j].job != job)
  }

  /** Some job reads overdue that was overdue when last read. */
  predicate TwiceOverdue(health: seq<Health>, counts: map<Job, nat>, now: Instant) {
    exists k :: 0 <= k < |health| && Overdue(health[k], now) && WasOverdue(health, counts, now, health[k].job, k)
  }

  predicate SomeOverdue(health: seq<Health>, now: Instant) {
    exists k :: 0 <= k < |health| && Overdue(health[k], now)
  }

  lemma {:induction false} WasOverdueFront(
      front: seq<Health>, h: Health, counts: map<Job, nat>, now: Instant, job: Job, k: nat)
    requires k <= |front|
    ensures WasOverdue(front + [h], counts, now, job, k) <==> WasOverdue(front, counts, now, job, k)
  {
    hide Overdue;
    var all := front + [h];
    assert forall j :: 0 <= j < k ==> all[j] == front[j];
    assert forall j :: 0 <= j < k ==> (LastMentioned(all, job, j, k) <==> LastMentioned(front, job, j, k));
  }

  lemma WasOverdueNext(front: seq<Health>, h: Health, counts: map<Job, nat>, now: Instant, job: Job)
    ensures var n := |front|;
            WasOverdue(front + [h], counts, now, job, n + 1)
            <==> if h.job == job then Overdue(h, now) else WasOverdue(front, counts, now, job, n)
  {
    hide Overdue;
    var all, n := front + [h], |front|;
    assert forall j :: 0 <= j < n ==> all[j] == front[j];
    if h.job == job {
      assert LastMentioned(all, job, n, n + 1);
    } else {
      assert forall j :: 0 <= j < n ==> (LastMentioned(all, job, j, n + 1) <==> LastMentioned(front, job, j, n));
    }
  }

  /** The counts say which jobs were overdue when last read, and the scan which were already so before. */
  lemma {:induction false} ScanExactly(health: seq<Health>, counts: map<Job, nat>, now: Instant)
    ensures var s := ScanHealth(health, counts, now);
            && (forall job :: Count(s.counts, job) >= 1 <==> WasOverdue(health, counts, now, job, |health|))
            && (s.confirmed != [] <==> TwiceOverdue(health, counts, now))
            && (s.anyStale <==> SomeOverdue(health, now))
  {
    if health != [] {
      var n := |health| - 1;
      var front, h := health[..n], health[n];
      assert health == front + [h];
      ScanExactly(front, counts, now);
      var f, s := ScanHealth(front, counts, now), ScanHealth(health, counts, now);
      ScanOne(front, h, counts, now);
      TwiceOverdueNext(front, h, counts, now);
      forall job ensures Count(s.counts, job) >= 1 <==> WasOverdue(health, counts, now, job, |health|) {
        WasOverdueNext(front, h, counts, now, job);
      }
    }
  }

  lemma ScanOne(front: seq<Health>, h: Health, counts: map<Job, nat>, now: Instant)
    ensures var f, s := ScanHealth(front, counts, now), ScanHealth(front + [h], counts, now);
            && (forall job :: Count(s.counts, job)
                              == if job != h.job then Count(f.counts, job)
                                 else if Overdue(h, now) then Count(f.counts, job) + 1 else 0)
            && (s.confirmed != [] <==> f.confirmed != [] || (Overdue(h, now) && Count(f.counts, h.job) >= 1))
            && s.anyStale == (f.anyStale || Overdue(h, now))
  {
    assert (front + [h])[..|front|] == front;
  }

  lemma TwiceOverdueNext(front: seq<Health>, h: Health, counts: map<Job, nat>, now: Instant)
    ensures TwiceOverdue(front + [h], counts, now)
            <==> TwiceOverdue(front, counts, now)
                 || (Overdue(h, now) && WasOverdue(front, counts, now, h.job, |front|))
    ensures SomeOverdue(front + [h], now) <==> SomeOverdue(front, now) || Overdue(h, now)
  {
    hide Overdue, WasOverdue;
    var all, n := front + [h], |front|;
    assert all[n] == h && forall k :: 0 <= k < n ==> all[k] == front[k];
    forall k | 0 <= k <= n
      ensures WasOverdue(all, counts, now, all[k].job, k) <==> WasOverdue(front, counts, now, all[k].job, k)
    {
      WasOverdueFront(front, h, counts, now, all[k].job, k);
    }
    if TwiceOverdue(front, counts, now) {
      var k :| 0 <= k < n && Overdue(front[k], now) && WasOverdue(front, counts, now, front[k].job, k);
      assert Overdue(all[k], now) && WasOverdue(all, counts, now, all[k].job, k);
    }
    if SomeOverdue(front, now) {
      var k :| 0 <= k < n && Overdue(front[k], now);
      assert Overdue(all[k], now);
    }
  }

  /** The crashes of the last five minutes, by place. */
  function RecentCrashes(crashes: seq<Instant>, now: Instant): set<nat> {
    set i: nat | i < |crashes| && now - crashes[i] <= 300 * SECOND
  }

  lemma {:induction false} CrashesCounted(crashes: seq<Instant>, now: Instant)
    ensures |CrashesInWindow(crashes, now)| == |RecentCrashes(crashes, now)|
  {
    var recent := RecentCrashes(crashes, now);
    if crashes == [] {
      assert recent == {};
    } else {
      var n := |crashes| - 1;
      var front := crashes[..n];
      CrashesCounted(front, now);
      assert recent - {n} == RecentCrashes(front, now);
    }
  }

  lemma NoneRecent(crashes: seq<Instant>, now: Instant)
    ensures RecentCrashes(crashes, now) == {}
            <==> forall i :: 0 <= i < |crashes| ==> now - crashes[i] > 300 * SECOND
  {
    if i :| 0 <= i < |crashes| && now - crashes[i] <= 300 * SECOND {
      assert i in RecentCrashes(crashes, now);
    }
  }

  /** Less than ten minutes since the enforcer was last restarted, or the Mac booted. */
  predicate JustStarted(inputs: Inputs, state: State, now: Instant) {
    || now - inputs.bootedAt < 600 * SECOND
    || (state.lastKickstartAt.Some? && now - state.lastKickstartAt.value < 600 * SECOND)
  }

  /** A staged version that could go in over the running one. */
  predicate HasUpgrade(inputs: Inputs) {
    exists v :: v in inputs.staged && IsNewer(v, inputs.running)
                && Some(v) != inputs.lastGood && v !in inputs.quarantined
  }

  /** The enforcer says it has just locked, or shut the Mac down. */
  predicate LockInForce(health: seq<Health>) {
    exists i :: 0 <= i < |health| && health[i].job == "enforcer"
                && health[i].lastDecision in {Some("lock"), Some("shutdown")}
  }

  lemma CandidatesExactly(inputs: Inputs)
    ensures OldestFirst(Candidates(inputs, inputs.staged)) != [] <==> HasUpgrade(inputs)
  {
    hide IsNewer, OldestFirst;
    SortNothing();
    var candidates := Candidates(inputs, inputs.staged);
    if candidates != [] {
      OldestFirstEndsNewest(candidates);
      assert candidates[0] in inputs.staged;
    }
    NewerIrreflexive(inputs.running);
  }

  lemma LockInForceExactly(health: seq<Health>)
    ensures IsEnforcing(health) <==> LockInForce(health)
  {
    if IsEnforcing(health) {
      var h :| h in health && h.job == "enforcer"
               && (h.lastDecision == Some("lock") || h.lastDecision == Some("shutdown"));
      var i :| 0 <= i < |health| && health[i] == h;
      assert health[i].job == "enforcer";
    }
  }

  /**
    An upgrade goes in exactly when there is one, every health file is there and under five
    minutes old, nothing crashed in the last five, ten have passed since the boot and the last
    restart, and no lock is in force.
   */
  lemma InstallsExactly(inputs: Inputs, state: State, now: Instant)
    ensures StepOf(inputs, state, now).decision.Install?
            <==> && HasUpgrade(inputs)
                 && !SomeOverdue(inputs.health, now)
                 && (forall i :: 0 <= i < |inputs.recentCrashes| ==> now - inputs.recentCrashes[i] > 300 * SECOND)
                 && !JustStarted(inputs, state, now)
                 && !LockInForce(inputs.health)
  {
    hide WithinDay, ScanHealth, CrashesInWindow, OldestFirst, Candidates, IsEnforcing, Overdue, WasOverdue;
    ScanExactly(inputs.health, state.consecutiveStale, now);
    CrashesCounted(inputs.recentCrashes, now);
    CandidatesExactly(inputs);
    LockInForceExactly(inputs.health);
    NoneRecent(inputs.recentCrashes, now);
  }

  /** The agent is sick: overdue twice running, or three crashes in five minutes. */
  predicate Sick(inputs: Inputs, state: State, now: Instant) {
    TwiceOverdue(inputs.health, state.consecutiveStale, now) || |RecentCrashes(inputs.recentCrashes, now)| >= 3
  }

  /** A last-good version to go back to, still on disk. */
  predicate HasFallback(inputs: Inputs) {
    inputs.lastGood.Some? && inputs.lastGood.value != inputs.running && inputs.lastGood.value in inputs.staged
  }

  /**
    It rolls back exactly when the agent is sick, ten minutes have passed since the boot and the
    last restart, fewer than three roll-backs fall in the last day, and there is a fallback.
    The reason is the health files if they say so, the crashes otherwise.
   */
  lemma RollsBackExactly(inputs: Inputs, state: State, now: Instant)
    ensures var d := StepOf(inputs, state, now).decision;
            && (d.Rollback?
                <==> && Sick(inputs, state, now)
                     && !JustStarted(inputs, state, now)
                     && |PlacesWithinDay(state.rollbacksInWindow, now)| < 3
                     && HasFallback(inputs))
            && (d.Rollback? ==> (d.reason.HealthStale? <==> TwiceOverdue(inputs.health, state.consecutiveStale, now)))
  {
    hide WithinDay, ScanHealth, CrashesInWindow, OldestFirst, Candidates, IsEnforcing, Overdue, WasOverdue;
    ScanExactly(inputs.health, state.consecutiveStale, now);
    CrashesCounted(inputs.recentCrashes, now);
    WithinDayCounted(state.rollbacksInWindow, now);
  }

  /** And what it says when it does neither: the first obstacle it meets, or nothing to do. */
  lemma ReportsExactly(inputs: Inputs, state: State, now: Instant)
    ensures var d, sick, just := StepOf(inputs, state, now).decision, Sick(inputs, state, now),
                                 JustStarted(inputs, state, now);
            var spent := |PlacesWithinDay(state.rollbacksInWindow, now)| >= 3;
            var unwell := SomeOverdue(inputs.health, now) || RecentCrashes(inputs.recentCrashes, now) != {};
            && (d == Report(UnhealthyInCooldown) <==> sick && just)
            && (d == Report(RollbackBudgetExhausted) <==> sick && !just && spent)
            && (d == Report(NoRollbackTarget) <==> sick && !just && !spent && !HasFallback(inputs))
            && (d.Idle? <==> !sick && !HasUpgrade(inputs))
            && (d == Report(DeferredUnhealthy) <==> !sick && HasUpgrade(inputs) && unwell)
            && (d == Report(DeferredCooldown) <==> HasUpgrade(inputs) && !unwell && just)
            && (d == Report(DeferredEnforcing)
                <==> HasUpgrade(inputs) && !unwell && !just && LockInForce(inputs.health))
  {
    hide WithinDay, ScanHealth, CrashesInWindow, OldestFirst, Candidates, IsEnforcing, Overdue, WasOverdue;
    ScanExactly(inputs.health, state.consecutiveStale, now);
    CrashesCounted(inputs.recentCrashes, now);
    WithinDayCounted(state.rollbacksInWindow, now);
    CandidatesExactly(inputs);
    LockInForceExactly(inputs.health);
  }

  // ---- Rate limits over whole runs -----------------------------------------------------------------

  datatype Tick = Tick(inputs: Inputs, now: Instant)

  function StateBefore(start: State, ticks: seq<Tick>, n: nat): State
    requires n <= |ticks|
  {
    if n == 0 then start else StepOf(ticks[n - 1].inputs, StateBefore(start, ticks, n - 1), ticks[n - 1].now).state
  }

  function DecisionAt(start: State, ticks: seq<Tick>, n: nat): Decision
    requires n < |ticks|
  {
    StepOf(ticks[n].inputs, StateBefore(start, ticks, n), ticks[n].now).decision
  }

  predicate InOrder(ticks: seq<Tick>) {
    forall i, j :: 0 <= i <= j < |ticks| ==> ticks[i].now <= ticks[j].now
  }

  lemma KickstartFacts(inputs: Inputs, state: State, now: Instant)
    ensures var r := StepOf(inputs, state, now);
            && (r.decision.Kickstarts() ==>
                  && r.state.lastKickstartAt == Some(now)
                  && (state.lastKickstartAt.Some? ==> now - state.lastKickstartAt.value >= KICKSTART_COOLDOWN))
            && (!r.decision.Kickstarts() ==> r.state.lastKickstartAt == state.lastKickstartAt)
  {
  }

  lemma RollbackWindowFacts(inputs: Inputs, state: State, now: Instant)
    ensures var r := StepOf(inputs, state, now);
            var kept := WithinDay(state.rollbacksInWindow, now);
            && r.state.rollbacksInWindow == (if r.decision.Rollback? then kept + [now] else kept)
            && (r.decision.Rollback? ==> |kept| < MAX_ROLLBACKS_PER_24H)
  {
    hide WithinDay, ScanHealth, CrashesInWindow, OldestFirst, Candidates, IsEnforcing;
  }

  lemma {:induction false} LastKickstartKnown(ticks: seq<Tick>, i: nat, n: nat)
    requires i < n <= |ticks| && InOrder(ticks) && DecisionAt(INITIAL, ticks, i).Kickstarts()
    ensures StateBefore(INITIAL, ticks, n).lastKickstartAt.Some?
            && ticks[i].now <= StateBefore(INITIAL, ticks, n).lastKickstartAt.value
  {
    hide StepOf;
    KickstartFacts(ticks[n - 1].inputs, StateBefore(INITIAL, ticks, n - 1), ticks[n - 1].now);
    if i < n - 1 {
      LastKickstartKnown(ticks, i, n - 1);
    }
  }

  /** Any two decisions that restart the enforcer are at least ten minutes apart. */
  lemma KickstartsAreSpaced(ticks: seq<Tick>, i: nat, j: nat)
    requires i < j < |ticks| && InOrder(ticks)
    requires DecisionAt(INITIAL, ticks, i).Kickstarts() && DecisionAt(INITIAL, ticks, j).Kickstarts()
    ensures ticks[j].now - ticks[i].now >= KICKSTART_COOLDOWN
  {
    hide StepOf;
    LastKickstartKnown(ticks, i, j);
    KickstartFacts(ticks[j].inputs, StateBefore(INITIAL, ticks, j), ticks[j].now);
  }

  /** Rollbacks among the first `n` ticks less than a day before `now`. */
  function RollbacksWithinDay(ticks: seq<Tick>, n: nat, now: Instant): nat
    requires n <= |ticks|
  {
    if n == 0 then 0
    else RollbacksWithinDay(ticks, n - 1, now)
         + (if DecisionAt(INITIAL, ticks, n - 1).Rollback? && now - ticks[n - 1].now < DAY then 1 else 0)
  }

  lemma {:induction false} WindowCountsRollbacks(ticks: seq<Tick>, n: nat, now: Instant)
    requires n <= |ticks| && InOrder(ticks) && (n > 0 ==> ticks[n - 1].now <= now)
    ensures |WithinDay(StateBefore(INITIAL, ticks, n).rollbacksInWindow, now)| == RollbacksWithinDay(ticks, n, now)
  {
    hide StepOf;
    if n > 0 {
      var t, state := ticks[n - 1], StateBefore(INITIAL, ticks, n - 1);
      WindowCountsRollbacks(ticks, n - 1, now);
      RollbackWindowFacts(t.inputs, state, t.now);
      WithinDayTwice(state.rollbacksInWindow, t.now, now);
      WithinDayLast(WithinDay(state.rollbacksInWindow, t.now), t.now, now);
    }
  }

  lemma {:induction false} RollbackSetCounted(ticks: seq<Tick>, s: set<nat>, n: nat, now: Instant)
    requires n <= |ticks|
    requires forall i :: i in s ==> i < n && DecisionAt(INITIAL, ticks, i).Rollback? && now - ticks[i].now < DAY
    ensures |s| <= RollbacksWithinDay(ticks, n, now)
  {
    hide StepOf;
    if n == 0 {
      assert s == {};
    } else {
      RollbackSetCounted(ticks, s - {n - 1}, n - 1, now);
      if n - 1 in s {
        assert |s| == |s - {n - 1}| + 1;
      } else {
        assert s - {n - 1} == s;
      }
    }
  }

  /** Any day holds at most three rollbacks. */
  lemma AtMostThreeRollbacksPerDay(ticks: seq<Tick>, rollbacks: set<nat>)
    requires InOrder(ticks)
    requires forall i :: i in rollbacks ==> i < |ticks| && DecisionAt(INITIAL, ticks, i).Rollback?
    requires forall i, j :: i in rollbacks && j in rollbacks ==> Abs(ticks[i].now - ticks[j].now) < DAY
    ensures |rollbacks| <= MAX_ROLLBACKS_PER_24H
  {
    hide StepOf;
    if rollbacks != {} {
      var m := Largest(rollbacks);
      var t, state := ticks[m], StateBefore(INITIAL, ticks, m);
      RollbackWindowFacts(t.inputs, state, t.now);
      WindowCountsRollbacks(ticks, m, t.now);
      RollbackSetCounted(ticks, rollbacks, m + 1, t.now);
    }
  }

  // ---- Restarts ----------------------------------------------------------------------------------------

  /** The supervisor's processes, one after another: each starts afresh, booted after the last tick of those before. */
  predicate LivesInOrder(lives: seq<seq<Tick>>) {
    && (forall a :: 0 <= a < |lives| ==> InOrder(lives[a]))
    && (forall a, i, b, j :: 0 <= a < b < |lives| && 0 <= i < |lives[a]| && 0 <= j < |lives[b]| ==>
          lives[a][i].now <= lives[b][j].inputs.bootedAt)
  }

  lemma KickstartIsLateInItsLife(inputs: Inputs, state: State, now: Instant)
    requires StepOf(inputs, state, now).decision.Kickstarts()
    ensures now - inputs.bootedAt >= KICKSTART_COOLDOWN
  {
  }

  /** The ten minutes survive a restart, for the cooldown counts from the boot as well. */
  lemma KickstartsAreSpacedAcrossRestarts(lives: seq<seq<Tick>>, a: nat, i: nat, b: nat, j: nat)
    requires LivesInOrder(lives) && a <= b < |lives| && i < |lives[a]| && j < |lives[b]| && (a == b ==> i < j)
    requires DecisionAt(INITIAL, lives[a], i).Kickstarts() && DecisionAt(INITIAL, lives[b], j).Kickstarts()
    ensures lives[b][j].now - lives[a][i].now >= KICKSTART_COOLDOWN
  {
    hide StepOf;
    if a == b {
      KickstartsAreSpaced(lives[a], i, j);
    } else {
      KickstartIsLateInItsLife(lives[b][j].inputs, StateBefore(INITIAL, lives[b], j), lives[b][j].now);
    }
  }

  /** The budget does not: only this life's own rollbacks are counted against it. */
  lemma BudgetIsThisLifes(ticks: seq<Tick>, n: nat)
    requires n < |ticks| && InOrder(ticks)
    ensures var t, d := ticks[n], DecisionAt(INITIAL, ticks, n);
            && (d == Report(RollbackBudgetExhausted) ==> RollbacksWithinDay(ticks, n, t.now) >= MAX_ROLLBACKS_PER_24H)
            && (d.Rollback? ==> RollbacksWithinDay(ticks, n, t.now) < MAX_ROLLBACKS_PER_24H)
  {
    hide WithinDay, ScanHealth, CrashesInWindow, OldestFirst, Candidates, IsEnforcing, InCooldown;
    WindowCountsRollbacks(ticks, n, ticks[n].now);
  }

  /** So any day holds at most three rollbacks for each process life it touches: a fourth needs a second. */
  lemma AtMostThreeRollbacksPerLife(lives: seq<seq<Tick>>, rollbacks: set<Place>)
    requires forall life :: 0 <= life < |lives| ==> InOrder(lives[life])
    requires forall p :: p in rollbacks ==>
               p.life < |lives| && p.tick < |lives[p.life]| && DecisionAt(INITIAL, lives[p.life], p.tick).Rollback?
    requires forall p, q :: p in rollbacks && q in rollbacks ==>
               Abs(lives[p.life][p.tick].now - lives[q.life][q.tick].now) < DAY
    ensures |rollbacks| <= MAX_ROLLBACKS_PER_24H * |LivesOf(rollbacks)|
  {
    hide InOrder, DecisionAt;
    forall life | life in LivesOf(rollbacks) ensures |InLife(rollbacks, life)| <= MAX_ROLLBACKS_PER_24H {
      var ticks := InLife(rollbacks, life);
      forall i | i in ticks ensures i < |lives[life]| && DecisionAt(INITIAL, lives[life], i).Rollback? {
        assert Place(life, i) in rollbacks;
      }
      forall i, j | i in ticks && j in ticks ensures Abs(lives[life][i].now - lives[life][j].now) < DAY {
        assert Place(life, i) in rollbacks && Place(life, j) in rollbacks;
      }
      AtMostThreeRollbacksPerDay(lives[life], ticks);
    }
    PerLife(rollbacks, MAX_ROLLBACKS_PER_24H);
  }

  /** A crash loop at `now`, with one version to fall back to. */
  function CrashLoopTick(running: Version, lastGood: Version, booted: Instant, now: Instant): Tick {
    Tick(Inputs(running, [], [now, now, now], [lastGood], Some(lastGood), {}, booted), now)
  }

  function CrashLoopLife(running: Version, lastGood: Version, booted: Instant): (life: seq<Tick>)
    ensures |life| == 4
  {
    seq(4, i => CrashLoopTick(running, lastGood, booted, booted + (i + 1) * KICKSTART_COOLDOWN))
  }

  lemma CrashLoopStep(t: Tick, state: State, running: Version, lastGood: Version, booted: Instant, now: Instant)
    requires t == CrashLoopTick(running, lastGood, booted, now) && running != lastGood
    requires now - booted >= KICKSTART_COOLDOWN
    requires state.lastKickstartAt.Some? ==> now - state.lastKickstartAt.value >= KICKSTART_COOLDOWN
    ensures var r := StepOf(t.inputs, state, now);
            if |WithinDay(state.rollbacksInWindow, now)| >= MAX_ROLLBACKS_PER_24H
            then r.decision == Report(RollbackBudgetExhausted)
            else r.decision.Rollback? && r.state.lastKickstartAt == Some(now)
                 && r.state.rollbacksInWindow == WithinDay(state.rollbacksInWindow, now) + [now]
  {
    hide WithinDay, OldestFirst, Candidates, IsEnforcing, CrashesInWindow;
    ThreeCrashes(now);
  }

  lemma ThreeCrashes(now: Instant)
    ensures |CrashesInWindow([now, now, now], now)| == 3
  {
    assert [now][..0] == [] && [now, now][..1] == [now] && [now, now, now][..2] == [now, now];
    assert CrashesInWindow([now], now) == [now];
  }

  lemma LifeTick(running: Version, lastGood: Version, booted: Instant, n: nat)
    requires n < 4
    ensures var t, now := CrashLoopLife(running, lastGood, booted)[n], booted + (n + 1) * KICKSTART_COOLDOWN;
            t == CrashLoopTick(running, lastGood, booted, now) && t.now == now && t.inputs.bootedAt == booted
  {
  }

  lemma {:induction false} CrashLoopRollsBack(running: Version, lastGood: Version, booted: Instant, n: nat)
    requires running != lastGood && n <= MAX_ROLLBACKS_PER_24H
    ensures var life, state := CrashLoopLife(running, lastGood, booted),
                               StateBefore(INITIAL, CrashLoopLife(running, lastGood, booted), n);
            && state.rollbacksInWindow == seq(n, i => booted + (i + 1) * KICKSTART_COOLDOWN)
            && (state.lastKickstartAt.Some? ==> state.lastKickstartAt.value == booted + n * KICKSTART_COOLDOWN)
            && (if n < MAX_ROLLBACKS_PER_24H then DecisionAt(INITIAL, life, n).Rollback?
                else DecisionAt(INITIAL, life, n) == Report(RollbackBudgetExhausted))
  {
    hide StepOf, WithinDay, CrashLoopTick, CrashLoopLife;
    var life := CrashLoopLife(running, lastGood, booted);
    var past := seq(n, i => booted + (i + 1) * KICKSTART_COOLDOWN);
    if n > 0 {
      CrashLoopRollsBack(running, lastGood, booted, n - 1);
      var before := seq(n - 1, i => booted + (i + 1) * KICKSTART_COOLDOWN);
      LifeTick(running, lastGood, booted, n - 1);
      AllWithinDay(before, life[n - 1].now);
      CrashLoopStep(life[n - 1], StateBefore(INITIAL, life, n - 1), running, lastGood, booted, life[n - 1].now);
      assert past == before + [life[n - 1].now];
    }
    LifeTick(running, lastGood, booted, n);
    AllWithinDay(past, life[n].now);
    CrashLoopStep(life[n], StateBefore(INITIAL, life, n), running, lastGood, booted, life[n].now);
  }

  lemma {:induction false} AllWithinDay(instants: seq<Instant>, now: Instant)
    requires forall i :: 0 <= i < |instants| ==> now - instants[i] < DAY
    ensures WithinDay(instants, now) == instants
  {
    if instants != [] {
      AllWithinDay(instants[..|instants| - 1], now);
      assert instants == instants[..|instants| - 1] + [instants[|instants| - 1]];
    }
  }

  lemma CrashLoopLivesInOrder(running: Version, lastGood: Version, booted: Instant)
    ensures LivesInOrder([CrashLoopLife(running, lastGood, booted),
                          CrashLoopLife(running, lastGood, booted + 4 * KICKSTART_COOLDOWN)])
  {
    hide CrashLoopLife, CrashLoopTick;
    var again := booted + 4 * KICKSTART_COOLDOWN;
    forall n: nat | n < 4
      ensures CrashLoopLife(running, lastGood, booted)[n].now == booted + (n + 1) * KICKSTART_COOLDOWN
      ensures CrashLoopLife(running, lastGood, again)[n].now == again + (n + 1) * KICKSTART_COOLDOWN
      ensures CrashLoopLife(running, lastGood, again)[n].inputs.bootedAt == again
    {
      LifeTick(running, lastGood, booted, n);
      LifeTick(running, lastGood, again, n);
    }
  }

  /** Four rollbacks in fifty minutes: the fourth is refused in one life, and made by the next. */
  lemma RestartRenewsTheBudget(running: Version, lastGood: Version, booted: Instant)
    requires running != lastGood
    ensures var first := CrashLoopLife(running, lastGood, booted);
            var second := CrashLoopLife(running, lastGood, booted + 4 * KICKSTART_COOLDOWN);
            && LivesInOrder([first, second])
            && (forall n: nat :: n < 3 ==> DecisionAt(INITIAL, first, n).Rollback?)
            && DecisionAt(INITIAL, first, 3) == Report(RollbackBudgetExhausted)
            && DecisionAt(INITIAL, second, 0).Rollback?
            && second[0].now - first[0].now < HOUR
  {
    hide StepOf, DecisionAt, LivesInOrder;
    CrashLoopLivesInOrder(running, lastGood, booted);
    CrashLoopRollsBack(running, lastGood, booted, 0);
    CrashLoopRollsBack(running, lastGood, booted, 1);
    CrashLoopRollsBack(running, lastGood, booted, 2);
    CrashLoopRollsBack(running, lastGood, booted, 3);
    CrashLoopRollsBack(running, lastGood, booted + 4 * KICKSTART_COOLDOWN, 0);
  }

  // ---- Exactly when it acts, over whole runs ---------------------------------------------------------

  predicate Mentions(health: seq<Health>, job: Job) {
    exists k :: 0 <= k < |health| && health[k].job == job
  }

  /** The job's last reading of a tick is overdue. */
  predicate LastReadOverdue(health: seq<Health>, job: Job, now: Instant) {
    exists j :: 0 <= j < |health| && LastMentioned(health, job, j, |health|) && Overdue(health[j], now)
  }

  /** Read overdue at tick `i`, not read again and no rollback before tick `n`. */
  predicate StandingStale(ticks: seq<Tick>, job: Job, i: nat, n: nat)
    requires i < n <= |ticks|
  {
    && LastReadOverdue(ticks[i].inputs.health, job, ticks[i].now)
    && (forall k :: i < k < n ==> !Mentions(ticks[k].inputs.health, job))
    && (forall k :: i <= k < n ==> !DecisionAt(INITIAL, ticks, k).Rollback?)
  }

  predicate StandsStale(ticks: seq<Tick>, job: Job, n: nat)
    requires n <= |ticks|
  {
    exists i :: 0 <= i < n && StandingStale(ticks, job, i, n)
  }

  lemma StaleCountFacts(inputs: Inputs, state: State, now: Instant)
    ensures var r := StepOf(inputs, state, now);
            r.state.consecutiveStale
            == if r.decision.Rollback? then map[] else ScanHealth(inputs.health, state.consecutiveStale, now).counts
  {
    hide WithinDay, ScanHealth, CrashesInWindow, OldestFirst, Candidates, IsEnforcing, InCooldown;
  }

  /** What the counts remember is exactly the job's last reading since the last rollback. */
  lemma {:induction false} CountsRememberExactly(ticks: seq<Tick>, n: nat, job: Job)
    requires n <= |ticks|
    ensures Count(StateBefore(INITIAL, ticks, n).consecutiveStale, job) >= 1
            <==> StandsStale(ticks, job, n)
  {
    hide StepOf, ScanHealth, LastReadOverdue, Overdue, StandingStale;
    if n > 0 {
      var t, state := ticks[n - 1], StateBefore(INITIAL, ticks, n - 1);
      CountsRememberExactly(ticks, n - 1, job);
      StaleCountFacts(t.inputs, state, t.now);
      ScanExactly(t.inputs.health, state.consecutiveStale, t.now);
      hide Count, Mentions, StandsStale;
      LastReadDecides(t.inputs.health, state.consecutiveStale, t.now, job);
      StandingNext(ticks, n, job);
      CountNothing(job);
    }
  }

  lemma CountNothing(job: Job)
    ensures Count(map[], job) == 0
  {
  }

  lemma LastReadDecides(health: seq<Health>, counts: map<Job, nat>, now: Instant, job: Job)
    ensures WasOverdue(health, counts, now, job, |health|)
            <==> if Mentions(health, job) then LastReadOverdue(health, job, now) else Count(counts, job) >= 1
  {
    hide Overdue;
  }

  lemma StandingNext(ticks: seq<Tick>, n: nat, job: Job)
    requires 0 < n <= |ticks|
    ensures var t := ticks[n - 1];
            StandsStale(ticks, job, n)
            <==> && !DecisionAt(INITIAL, ticks, n - 1).Rollback?
                 && if Mentions(t.inputs.health, job) then LastReadOverdue(t.inputs.health, job, t.now)
                    else StandsStale(ticks, job, n - 1)
  {
    hide DecisionAt, Overdue;
    var t := ticks[n - 1];
    if StandsStale(ticks, job, n) {
      var i :| 0 <= i < n && StandingStale(ticks, job, i, n);
      if i < n - 1 {
        var earlier := n - 1;
        assert StandingStale(ticks, job, i, earlier);
      }
    }
    if !DecisionAt(INITIAL, ticks, n - 1).Rollback? {
      if LastReadOverdue(t.inputs.health, job, t.now) {
        assert StandingStale(ticks, job, n - 1, n);
      } else if !Mentions(t.inputs.health, job) {
        if StandsStale(ticks, job, n - 1) {
          var earlier := n - 1;
          var i :| 0 <= i < earlier && StandingStale(ticks, job, i, earlier);
          assert StandingStale(ticks, job, i, n);
        }
      }
    }
  }

  /**
    Some job's file is overdue at tick `n`, and was when last read: further up the same list, or
    else on the last tick that read it, with no rollback since.
   */
  predicate ConfirmedOverdue(ticks: seq<Tick>, n: nat)
    requires n < |ticks|
  {
    var health, now := ticks[n].inputs.health, ticks[n].now;
    exists k :: 0 <= k < |health| && Overdue(health[k], now) && OverdueBefore(ticks, n, k)
  }

  predicate OverdueBefore(ticks: seq<Tick>, n: nat, k: nat)
    requires n < |ticks| && k < |ticks[n].inputs.health|
  {
    var health, now := ticks[n].inputs.health, ticks[n].now;
    var job := health[k].job;
    || (exists j :: 0 <= j < k && LastMentioned(health, job, j, k) && Overdue(health[j], now))
    || ((forall j :: 0 <= j < k ==> health[j].job != job) && StandsStale(ticks, job, n))
  }

  lemma ConfirmedExactly(ticks: seq<Tick>, n: nat)
    requires n < |ticks|
    ensures TwiceOverdue(ticks[n].inputs.health, StateBefore(INITIAL, ticks, n).consecutiveStale, ticks[n].now)
            <==> ConfirmedOverdue(ticks, n)
  {
    hide Overdue, StandsStale, LastMentioned;
    var health, now := ticks[n].inputs.health, ticks[n].now;
    var counts := StateBefore(INITIAL, ticks, n).consecutiveStale;
    forall k | 0 <= k < |health|
      ensures WasOverdue(health, counts, now, health[k].job, k) <==> OverdueBefore(ticks, n, k)
    {
      CountsRememberExactly(ticks, n, health[k].job);
    }
  }

  lemma {:induction false} LastKickstartIsOne(ticks: seq<Tick>, n: nat)
    requires n <= |ticks| && StateBefore(INITIAL, ticks, n).lastKickstartAt.Some?
    ensures exists i :: 0 <= i < n && DecisionAt(INITIAL, ticks, i).Kickstarts()
                        && StateBefore(INITIAL, ticks, n).lastKickstartAt.value == ticks[i].now
  {
    hide StepOf;
    if n > 0 {
      KickstartFacts(ticks[n - 1].inputs, StateBefore(INITIAL, ticks, n - 1), ticks[n - 1].now);
      if !DecisionAt(INITIAL, ticks, n - 1).Kickstarts() {
        LastKickstartIsOne(ticks, n - 1);
      }
    }
  }

  /** Ten minutes since the boot, and since every decision of this process to restart the enforcer. */
  predicate Settled(ticks: seq<Tick>, n: nat)
    requires n < |ticks|
  {
    && ticks[n].now - ticks[n].inputs.bootedAt >= 600 * SECOND
    && forall i :: 0 <= i < n && DecisionAt(INITIAL, ticks, i).Kickstarts() ==>
         ticks[n].now - ticks[i].now >= 600 * SECOND
  }

  lemma SettledExactly(ticks: seq<Tick>, n: nat)
    requires n < |ticks| && InOrder(ticks)
    ensures Settled(ticks, n) <==> !JustStarted(ticks[n].inputs, StateBefore(INITIAL, ticks, n), ticks[n].now)
  {
    hide DecisionAt, StateBefore;
    if StateBefore(INITIAL, ticks, n).lastKickstartAt.Some? {
      LastKickstartIsOne(ticks, n);
    }
    forall i | 0 <= i < n && DecisionAt(INITIAL, ticks, i).Kickstarts()
      ensures StateBefore(INITIAL, ticks, n).lastKickstartAt.Some?
              && ticks[i].now <= StateBefore(INITIAL, ticks, n).lastKickstartAt.value
    {
      LastKickstartKnown(ticks, i, n);
    }
  }

  /**
    Over a whole run, what the supervisor does at a tick from what it was shown and did before,
    its own bookkeeping left out: the roll-backs, and the installs.
   */
  lemma ActsExactlyOverRuns(ticks: seq<Tick>, n: nat)
    requires n < |ticks| && InOrder(ticks)
    ensures var d, inputs, now := DecisionAt(INITIAL, ticks, n), ticks[n].inputs, ticks[n].now;
            && (d.Rollback?
                <==> && (ConfirmedOverdue(ticks, n) || |RecentCrashes(inputs.recentCrashes, now)| >= 3)
                     && Settled(ticks, n) && RollbacksWithinDay(ticks, n, now) < 3 && HasFallback(inputs))
            && (d.Rollback? ==> (d.reason.HealthStale? <==> ConfirmedOverdue(ticks, n)))
            && (d.Install?
                <==> && HasUpgrade(inputs)
                     && !SomeOverdue(inputs.health, now) && RecentCrashes(inputs.recentCrashes, now) == {}
                     && Settled(ticks, n) && !LockInForce(inputs.health))
  {
    hide StepOf, Overdue, StateBefore, Settled, HasUpgrade, LockInForce, ConfirmedOverdue, TwiceOverdue, WithinDay;
    var t, state := ticks[n], StateBefore(INITIAL, ticks, n);
    RollsBackExactly(t.inputs, state, t.now);
    InstallsExactly(t.inputs, state, t.now);
    NoneRecent(t.inputs.recentCrashes, t.now);
    ConfirmedExactly(ticks, n);
    SettledExactly(ticks, n);
    WindowCountsRollbacks(ticks, n, t.now);
    WithinDayCounted(state.rollbacksInWindow, t.now);
  }

  predicate DistinctJobs(health: seq<Health>) {
    forall i, j :: 0 <= i < j < |health| ==> health[i].job != health[j].job
  }

  /**
    So a rollback for staleness follows two consecutive readings of one job, both overdue, with
    no rollback from the first of them on.
   */
  lemma StaleRollbackIsConfirmed(ticks: seq<Tick>, n: nat)
    requires n < |ticks| && InOrder(ticks) && DistinctJobs(ticks[n].inputs.health)
    requires DecisionAt(INITIAL, ticks, n).Rollback? && DecisionAt(INITIAL, ticks, n).reason.HealthStale?
    ensures exists job, i ::
              0 <= i < n && StandingStale(ticks, job, i, n)
              && LastReadOverdue(ticks[n].inputs.health, job, ticks[n].now)
  {
    hide DecisionAt, Overdue, StandingStale;
    ActsExactlyOverRuns(ticks, n);
    var health, now := ticks[n].inputs.health, ticks[n].now;
    var k :| 0 <= k < |health| && Overdue(health[k], now) && OverdueBefore(ticks, n, k);
    var i :| 0 <= i < n && StandingStale(ticks, health[k].job, i, n);
    assert LastMentioned(health, health[k].job, k, |health|);
  }
}
