/**
  Runs of the projector: events arrive between any two steps of a pass, and the process may
  die in the middle of one. The table is a cache of the from-scratch aggregate.
 */
module ProjectorRuns {
  import opened Basics
  import opened Projector

  /**
    How far the pass is with the first bucket it still has to do: its events read and summed,
    then its rows deleted. `behind` records that an event has since arrived in the bucket at
    or behind the line.
   */
  datatype Work =
    | Idle
    | Counted(rows: set<UsageRow>, behind: bool)
    | Emptied(rows: set<UsageRow>, behind: bool)

  /** A pass under way: buckets still to do, and the watermark it will set, if it sets one. */
  datatype Pass = Pass(todo: seq<Bucket>, to: Option<Stamp>, work: Work)

  /**
    `late` is history: the buckets that took an event at or behind the line a pass has drawn,
    had one skipped, or were left empty behind the watermark by a pass that died between
    delete and insert, and have not been recomputed since.
   */
  datatype Tables = Tables(
    events: seq<Event>, usage: set<UsageRow>, watermark: Stamp, pass: Option<Pass>, late: set<Bucket>)

  datatype Step =
    | Arrive(event: Event)
    | Scan(since: Option<Stamp>, advance: bool)
    | Count
    | Clear
    | Refill
    | Finish
    | Crash

  const EMPTY := Tables([], {}, 0, None, {})

  /** Where an event must lie beyond to be seen by a later pass. */
  function Line(t: Tables): Stamp {
    if t.pass.Some? && t.pass.value.to.Some? then Max(t.watermark, t.pass.value.to.value) else t.watermark
  }

  function SkippedBuckets(events: seq<Event>, watermark: Stamp, usable: seq<Event>): set<Bucket> {
    set e | e in events && Skips(events, watermark, usable, e) :: BucketOf(e)
  }

  /** Every event of the bucket arrived by `at`. */
  predicate Quiet(events: seq<Event>, bucket: Bucket, at: Stamp) {
    forall e :: e in events && BucketOf(e) == bucket ==> e.receivedAt <= at
  }

  predicate WorksOn(t: Tables, bucket: Bucket) {
    t.pass.Some? && !t.pass.value.work.Idle? && t.pass.value.todo != [] && t.pass.value.todo[0] == bucket
  }

  /** The pass has deleted the bucket's rows and not yet inserted the new ones. */
  predicate Torn(t: Tables, bucket: Bucket) {
    WorksOn(t, bucket) && t.pass.value.work.Emptied?
  }

  predicate Enabled(t: Tables, step: Step) {
    match step
    case Arrive(_) => true
    case Scan(_, _) => t.pass.None?
    case Count => t.pass.Some? && t.pass.value.todo != [] && t.pass.value.work.Idle?
    case Clear => t.pass.Some? && t.pass.value.todo != [] && t.pass.value.work.Counted?
    case Refill => t.pass.Some? && t.pass.value.todo != [] && t.pass.value.work.Emptied?
    case Finish => t.pass.Some? && t.pass.value.todo == []
    case Crash => true
  }

  function ScanStep(t: Tables, since: Option<Stamp>, advance: bool): Tables {
    var usable := UsableFrom(t.events, if since.Some? then since.value else t.watermark);
    if usable == [] then t
    else if !advance then t.(pass := Some(Pass(Dirty(usable), None, Idle)))
    else
      t.(pass := Some(Pass(Dirty(usable), Some(Newest(usable)), Idle)),
         late := t.late + SkippedBuckets(t.events, t.watermark, usable))
  }

  function ArriveStep(t: Tables, e: Event): Tables {
    var behind := e.receivedAt <= Line(t);
    var t' := t.(events := t.events + [e], late := if behind then t.late + {BucketOf(e)} else t.late);
    if behind && WorksOn(t, BucketOf(e)) then
      t'.(pass := Some(t.pass.value.(work := t.pass.value.work.(behind := true))))
    else t'
  }

  function RefillStep(t: Tables): Tables
    requires Enabled(t, Refill)
  {
    var pass := t.pass.value;
    t.(usage := t.usage + pass.work.rows,
       late := if pass.work.behind then t.late else t.late - {pass.todo[0]},
       pass := Some(pass.(todo := pass.todo[1..], work := Idle)))
  }

  /** What dies with the process is the pass; what it had emptied stays empty. */
  function CrashStep(t: Tables): Tables {
    var torn := t.pass.Some? && t.pass.value.todo != [] && t.pass.value.work.Emptied?;
    t.(pass := None,
       late := if torn && Quiet(t.events, t.pass.value.todo[0], t.watermark)
               then t.late + {t.pass.value.todo[0]} else t.late)
  }

  function Apply(t: Tables, step: Step): Tables
    requires Enabled(t, step)
  {
    match step
    case Arrive(e) => ArriveStep(t, e)
    case Scan(since, advance) => ScanStep(t, since, advance)
    case Count =>
      var pass := t.pass.value;
      t.(pass := Some(pass.(work := Counted(InBucket(FromScratch(t.events), pass.todo[0]), false))))
    case Clear =>
      var pass := t.pass.value;
      t.(usage := t.usage - InBucket(t.usage, pass.todo[0]),
         pass := Some(pass.(work := Emptied(pass.work.rows, pass.work.behind))))
    case Refill => RefillStep(t)
    case Finish =>
      t.(watermark := if t.pass.value.to.Some? then t.pass.value.to.value else t.watermark, pass := None)
    case Crash => CrashStep(t)
  }

  predicate Allowed(t: Tables, steps: seq<Step>)
    decreases |steps|
  {
    steps == [] || (Enabled(t, steps[0]) && Allowed(Apply(t, steps[0]), steps[1..]))
  }

  function Run(t: Tables, steps: seq<Step>): Tables
    requires Allowed(t, steps)
    decreases |steps|
  {
    if steps == [] then t else Run(Apply(t, steps[0]), steps[1..])
  }

  // ---- The invariant --------------------------------------------------------------------------------------

  predicate Matches(t: Tables, bucket: Bucket) {
    InBucket(t.usage, bucket) == InBucket(FromScratch(t.events), bucket)
  }

  ghost predicate SettledBehind(t: Tables) {
    forall b: Bucket :: b !in t.late && !Torn(t, b) && Quiet(t.events, b, t.watermark) ==> Matches(t, b)
  }

  /** Once the pass finishes, its buckets will be settled behind the new watermark. */
  ghost predicate SettledByPass(t: Tables) {
    t.pass.Some? && t.pass.value.to.Some? ==>
      forall b: Bucket :: b !in t.late && b !in t.pass.value.todo && Quiet(t.events, b, t.pass.value.to.value)
                          ==> Matches(t, b)
  }

  /** The count in hand is still right, unless an event has come in since. */
  ghost predicate WorkInv(t: Tables) {
    t.pass.Some? && !t.pass.value.work.Idle? ==>
      && t.pass.value.todo != []
      && var b, work := t.pass.value.todo[0], t.pass.value.work;
         && (forall row :: row in work.rows ==> row.key.bucket == b)
         && (work.behind ==> b in t.late)
         && (!work.behind && Quiet(t.events, b, Line(t)) ==> work.rows == InBucket(FromScratch(t.events), b))
         && (work.Emptied? ==> InBucket(t.usage, b) == {})
  }

  ghost predicate Inv(t: Tables) {
    SettledBehind(t) && SettledByPass(t) && WorkInv(t)
  }

  lemma RecomputedMatches(t: Tables, bucket: Bucket, other: Bucket)
    ensures var usage := Recomputed(t.usage, t.events, bucket);
            InBucket(usage, other)
            == if other == bucket then InBucket(FromScratch(t.events), bucket) else InBucket(t.usage, other)
  {
    hide FromScratch;
  }

  lemma ArriveElsewhere(events: seq<Event>, e: Event, bucket: Bucket)
    requires BucketOf(e) != bucket
    ensures InBucket(FromScratch(events + [e]), bucket) == InBucket(FromScratch(events), bucket)
  {
    assert (events + [e])[..|events|] == events;
    forall row
      ensures row in InBucket(FromScratch(events + [e]), bucket) <==> row in InBucket(FromScratch(events), bucket)
    {
      if row.key.bucket == bucket {
        KeysGrow(events, e, row.key);
        assert TotalsOf(events + [e], row.key) == TotalsOf(events, row.key);
      }
    }
  }

  lemma {:induction false} DirtyMembers(rows: seq<Event>)
    ensures forall b :: b in Dirty(rows) <==> exists e :: e in rows && BucketOf(e) == b
  {
    if rows != [] {
      var front, last := rows[..|rows| - 1], rows[|rows| - 1];
      DirtyMembers(front);
      assert rows == front + [last];
      forall b ensures b in Dirty(rows) <==> exists e :: e in rows && BucketOf(e) == b {
        if exists e :: e in front && BucketOf(e) == b {
          var e :| e in front && BucketOf(e) == b;
          assert e in rows;
        }
        assert last in rows;
      }
    }
  }

  lemma QuietGrows(events: seq<Event>, e: Event, b: Bucket, at: Stamp)
    ensures Quiet(events + [e], b, at) <==> Quiet(events, b, at) && (BucketOf(e) == b ==> e.receivedAt <= at)
  {
    if Quiet(events + [e], b, at) {
      forall x | x in events && BucketOf(x) == b ensures x.receivedAt <= at {
        assert x in events + [e];
      }
      assert e in events + [e];
    }
  }

  lemma ArriveKeepsSettled(t: Tables, e: Event, b: Bucket, at: Stamp)
    requires at <= Line(t) && b !in ArriveStep(t, e).late && Quiet(t.events + [e], b, at)
    ensures b !in t.late && Quiet(t.events, b, at)
    ensures Matches(ArriveStep(t, e), b) <==> Matches(t, b)
  {
    hide InBucket, FromScratch, Quiet;
    QuietGrows(t.events, e, b, at);
    if BucketOf(e) != b {
      ArriveElsewhere(t.events, e, b);
    }
  }

  lemma ArriveKeepsWork(t: Tables, e: Event)
    requires WorkInv(t)
    ensures WorkInv(ArriveStep(t, e))
  {
    hide InBucket, FromScratch, Quiet;
    if t.pass.Some? && !t.pass.value.work.Idle? {
      var b := t.pass.value.todo[0];
      QuietGrows(t.events, e, b, Line(t));
      if BucketOf(e) != b {
        ArriveElsewhere(t.events, e, b);
      }
    }
  }

  lemma ArriveKeeps(t: Tables, e: Event)
    requires Inv(t)
    ensures Inv(ArriveStep(t, e))
  {
    hide WorkInv, Matches, Quiet;
    ArriveKeepsWork(t, e);
    var t' := ArriveStep(t, e);
    forall b: Bucket | b !in t'.late && !Torn(t', b) && Quiet(t'.events, b, t'.watermark) ensures Matches(t', b) {
      ArriveKeepsSettled(t, e, b, t.watermark);
    }
    if t.pass.Some? && t.pass.value.to.Some? {
      var to := t.pass.value.to.value;
      forall b: Bucket | b !in t'.late && b !in t.pass.value.todo && Quiet(t'.events, b, to) ensures Matches(t', b) {
        ArriveKeepsSettled(t, e, b, to);
      }
    }
  }

  lemma QuietLonger(events: seq<Event>, b: Bucket, at: Stamp, later: Stamp)
    requires at <= later && Quiet(events, b, at)
    ensures Quiet(events, b, later)
  {
  }

  lemma CountKeeps(t: Tables)
    requires Inv(t) && Enabled(t, Count)
    ensures Inv(Apply(t, Count))
  {
    hide FromScratch, Quiet;
    var t' := Apply(t, Count);
    assert forall b :: Matches(t', b) <==> Matches(t, b);
  }

  lemma ClearKeeps(t: Tables)
    requires Inv(t) && Enabled(t, Clear)
    ensures Inv(Apply(t, Clear))
  {
    hide FromScratch, Quiet;
    var bucket, t' := t.pass.value.todo[0], Apply(t, Clear);
    forall b: Bucket ensures InBucket(t'.usage, b) == if b == bucket then {} else InBucket(t.usage, b) {
    }
  }

  lemma RefilledBucket(usage: set<UsageRow>, rows: set<UsageRow>, bucket: Bucket, b: Bucket)
    requires InBucket(usage, bucket) == {} && forall row :: row in rows ==> row.key.bucket == bucket
    ensures InBucket(usage + rows, b) == if b == bucket then rows else InBucket(usage, b)
  {
    forall row ensures row in InBucket(usage + rows, b)
                       <==> row in if b == bucket then rows else InBucket(usage, b)
    {
      assert row in usage && row.key.bucket == bucket ==> row in InBucket(usage, bucket);
    }
  }

  lemma RefillKeeps(t: Tables)
    requires Inv(t) && Enabled(t, Refill)
    ensures Inv(Apply(t, Refill))
  {
    hide FromScratch, Quiet;
    var bucket, t' := t.pass.value.todo[0], Apply(t, Refill);
    forall b: Bucket
      ensures InBucket(t'.usage, b) == if b == bucket then t.pass.value.work.rows else InBucket(t.usage, b)
    {
      RefilledBucket(t.usage, t.pass.value.work.rows, bucket, b);
    }
    forall at: Stamp | at <= Line(t) && Quiet(t.events, bucket, at) ensures Quiet(t.events, bucket, Line(t)) {
      QuietLonger(t.events, bucket, at, Line(t));
    }
    assert forall b :: b in t.pass.value.todo ==> b == bucket || b in t'.pass.value.todo;
  }

  /** A scan that advances draws its line where only its own buckets, and the skipped ones, are unsettled. */
  lemma ScanKeeps(t: Tables, since: Option<Stamp>, advance: bool)
    requires Inv(t) && t.pass.None?
    ensures Inv(ScanStep(t, since, advance))
  {
    hide InBucket, FromScratch;
    var t' := ScanStep(t, since, advance);
    var usable := UsableFrom(t.events, if since.Some? then since.value else t.watermark);
    if usable != [] && advance {
      forall b: Bucket
        | b !in t'.late && b !in Dirty(usable) && Quiet(t.events, b, Newest(usable))
        ensures Matches(t', b)
      {
        QuietBefore(t, usable, b);
        assert Matches(t, b);
      }
    }
  }

  lemma QuietBefore(t: Tables, usable: seq<Event>, b: Bucket)
    requires usable != [] && b !in Dirty(usable) && b !in SkippedBuckets(t.events, t.watermark, usable)
    requires Quiet(t.events, b, Newest(usable))
    ensures Quiet(t.events, b, t.watermark)
  {
    DirtyMembers(usable);
    forall e | e in t.events && BucketOf(e) == b ensures e.receivedAt <= t.watermark {
      assert !Skips(t.events, t.watermark, usable, e);
    }
  }

  lemma InvKept(t: Tables, step: Step)
    requires Inv(t) && Enabled(t, step)
    ensures Inv(Apply(t, step))
  {
    match step {
      case Arrive(e) => ArriveKeeps(t, e);
      case Scan(since, advance) => ScanKeeps(t, since, advance);
      case Count => CountKeeps(t);
      case Clear => ClearKeeps(t);
      case Refill => RefillKeeps(t);
      case Finish => EndKeeps(t, step);
      case Crash => EndKeeps(t, step);
    }
  }

  lemma EndKeeps(t: Tables, step: Step)
    requires Inv(t) && Enabled(t, step) && (step.Finish? || step.Crash?)
    ensures Inv(Apply(t, step))
  {
    hide InBucket, FromScratch, Quiet;
    var t' := Apply(t, step);
    assert forall b :: Matches(t', b) <==> Matches(t, b);
  }

  lemma {:induction false} InvHolds(t: Tables, steps: seq<Step>)
    requires Inv(t) && Allowed(t, steps)
    ensures Inv(Run(t, steps))
    decreases |steps|
  {
    hide Inv, Apply, Enabled;
    if steps != [] {
      InvKept(t, steps[0]);
      InvHolds(Apply(t, steps[0]), steps[1..]);
    }
  }

  // ---- Exactness ------------------------------------------------------------------------------------------

  predicate CaughtUp(t: Tables) {
    t.pass.None? && forall e :: e in t.events ==> e.receivedAt <= t.watermark
  }

  /**
    Over every run, whatever arrives when and wherever a pass dies: caught up with the
    backlog, every bucket not late holds exactly what a recount of all events would.
   */
  lemma CaughtUpIsExact(steps: seq<Step>, bucket: Bucket)
    requires Allowed(EMPTY, steps) && CaughtUp(Run(EMPTY, steps))
    requires bucket !in Run(EMPTY, steps).late
    ensures Matches(Run(EMPTY, steps), bucket)
  {
    hide Run, Allowed, Matches;
    var t := Run(EMPTY, steps);
    assert Inv(EMPTY) by { EmptyIsExact(); }
    InvHolds(EMPTY, steps);
    assert Quiet(t.events, bucket, t.watermark);
  }

  lemma EmptyIsExact()
    ensures Inv(EMPTY)
  {
    assert FromScratch([]) == {};
  }

  predicate TimelyStep(t: Tables, step: Step) {
    match step
    case Arrive(e) => e.receivedAt > Line(t)
    case Scan(since, advance) => advance ==> since.None? && !Oversized(Scanned(t.events, t.watermark))
    case Crash => t.pass.Some? && t.pass.value.work.Emptied? ==> t.pass.value.to.Some?
    case _ => true
  }

  /**
    Arrivals past the line, forward scans that are not oversized, and crashes anywhere but
    between the delete and the insert of a side pass.
   */
  predicate Timely(t: Tables, steps: seq<Step>)
    requires Allowed(t, steps)
    decreases |steps|
  {
    steps == [] || (TimelyStep(t, steps[0]) && Timely(Apply(t, steps[0]), steps[1..]))
  }

  /** A forward pass works only on buckets with an event past the watermark. */
  ghost predicate ForwardUnsettled(t: Tables) {
    t.pass.Some? && t.pass.value.to.Some? ==>
      forall b :: b in t.pass.value.todo ==> !Quiet(t.events, b, t.watermark)
  }

  lemma TimelyStepLeavesNothingLate(t: Tables, step: Step)
    requires t.late == {} && ForwardUnsettled(t) && Enabled(t, step) && TimelyStep(t, step)
    ensures Apply(t, step).late == {} && ForwardUnsettled(Apply(t, step))
  {
    hide Scanned, UsableFrom, Oversized, Skips, Dirty, FromScratch, InBucket;
    match step {
      case Arrive(e) =>
        forall b | Quiet(t.events + [e], b, t.watermark) ensures Quiet(t.events, b, t.watermark) {
          QuietGrows(t.events, e, b, t.watermark);
        }
      case Scan(since, advance) =>
        if advance {
          var usable := UsableFrom(t.events, t.watermark);
          forall e ensures !Skips(t.events, t.watermark, usable, e) {
            NotOversizedCovers(t.events, t.watermark, e);
          }
          assert SkippedBuckets(t.events, t.watermark, usable) == {};
          UsableFacts(t.events, t.watermark);
          DirtyMembers(usable);
        }
      case _ =>
    }
  }

  lemma {:induction false} TimelyLeavesNothingLate(t: Tables, steps: seq<Step>)
    requires t.late == {} && ForwardUnsettled(t) && Allowed(t, steps) && Timely(t, steps)
    ensures Run(t, steps).late == {}
    decreases |steps|
  {
    hide Apply, Enabled, TimelyStep, ForwardUnsettled;
    if steps != [] {
      TimelyStepLeavesNothingLate(t, steps[0]);
      TimelyLeavesNothingLate(Apply(t, steps[0]), steps[1..]);
    }
  }

  /**
    On a timely run, caught up means the whole table equals the from-scratch aggregate: a
    forward pass may die anywhere, because what it emptied is still past the watermark.
   */
  lemma TimelyIsExact(steps: seq<Step>)
    requires Allowed(EMPTY, steps) && Timely(EMPTY, steps) && CaughtUp(Run(EMPTY, steps))
    ensures Run(EMPTY, steps).usage == FromScratch(Run(EMPTY, steps).events)
  {
    hide Run, Allowed, Timely, CaughtUp, FromScratch;
    var t := Run(EMPTY, steps);
    TimelyLeavesNothingLate(EMPTY, steps);
    forall b: Bucket ensures Matches(t, b) {
      CaughtUpIsExact(steps, b);
    }
    ExactBucketByBucket(t);
  }

  // ---- One whole pass -------------------------------------------------------------------------------------

  function Source(t: Tables, since: Option<Stamp>): seq<Event> {
    UsableFrom(t.events, if since.Some? then since.value else t.watermark)
  }

  function BucketSteps(n: nat): seq<Step> {
    if n == 0 then [] else [Count, Clear, Refill] + BucketSteps(n - 1)
  }

  function PassSteps(t: Tables, since: Option<Stamp>, advance: bool): seq<Step> {
    if Source(t, since) == [] then [Scan(since, advance)]
    else [Scan(since, advance)] + (BucketSteps(|Dirty(Source(t, since))|) + [Finish])
  }

  lemma {:induction false} RunsJoin(t: Tables, first: seq<Step>, second: seq<Step>)
    requires Allowed(t, first) && Allowed(Run(t, first), second)
    ensures Allowed(t, first + second) && Run(t, first + second) == Run(Run(t, first), second)
    decreases |first|
  {
    hide Apply, Enabled;
    if first == [] {
      assert first + second == second;
    } else {
      assert (first + second)[0] == first[0] && (first + second)[1..] == first[1..] + second;
      RunsJoin(Apply(t, first[0]), first[1..], second);
    }
  }

  lemma OneStep(t: Tables, step: Step)
    requires Enabled(t, step)
    ensures Allowed(t, [step]) && Run(t, [step]) == Apply(t, step)
  {
    hide Apply, Enabled;
    assert [step][1..] == [];
  }

  lemma {:induction false} RecomputeFirst(usage: set<UsageRow>, events: seq<Event>, buckets: seq<Bucket>)
    requires buckets != []
    ensures RecomputedAll(usage, events, buckets)
            == RecomputedAll(Recomputed(usage, events, buckets[0]), events, buckets[1..])
  {
    hide Recomputed;
    if |buckets| > 1 {
      RecomputeFirst(usage, events, buckets[..|buckets| - 1]);
      assert buckets[..|buckets| - 1][1..] == buckets[1..][..|buckets| - 2];
    } else {
      assert buckets[..0] == [] && buckets[1..] == [];
      assert RecomputedAll(usage, events, buckets[..0]) == usage;
    }
  }

  function SetOf(buckets: seq<Bucket>): set<Bucket> {
    set b | b in buckets
  }

  /** Counting, clearing and refilling without a break recomputes the bucket. */
  lemma OneBucket(t: Tables)
    requires t.pass.Some? && t.pass.value.todo != [] && t.pass.value.work.Idle?
    ensures Allowed(t, [Count, Clear, Refill])
    ensures var b := t.pass.value.todo[0];
            Run(t, [Count, Clear, Refill])
            == t.(usage := Recomputed(t.usage, t.events, b), late := t.late - {b},
                  pass := Some(t.pass.value.(todo := t.pass.value.todo[1..])))
  {
    hide FromScratch, InBucket;
    var counted := Apply(t, Count);
    var cleared := Apply(counted, Clear);
    OneStep(t, Count);
    OneStep(counted, Clear);
    OneStep(cleared, Refill);
    RunsJoin(counted, [Clear], [Refill]);
    RunsJoin(t, [Count], [Clear] + [Refill]);
    assert [Count] + ([Clear] + [Refill]) == [Count, Clear, Refill];
  }

  lemma {:induction false} BucketsRun(t: Tables, n: nat)
    requires t.pass.Some? && n <= |t.pass.value.todo| && t.pass.value.work.Idle?
    ensures Allowed(t, BucketSteps(n))
    ensures var todo := t.pass.value.todo;
            Run(t, BucketSteps(n))
            == t.(usage := RecomputedAll(t.usage, t.events, todo[..n]), late := t.late - SetOf(todo[..n]),
                  pass := Some(t.pass.value.(todo := todo[n..])))
    decreases n
  {
    hide Recomputed, Apply, Enabled;
    var todo := t.pass.value.todo;
    if n == 0 {
      assert todo[..0] == [] && todo[0..] == todo && t.late - SetOf([]) == t.late;
    } else {
      OneBucket(t);
      var next := Run(t, [Count, Clear, Refill]);
      BucketsRun(next, n - 1);
      RunsJoin(t, [Count, Clear, Refill], BucketSteps(n - 1));
      RecomputeFirst(t.usage, t.events, todo[..n]);
      assert todo[..n][1..] == todo[1..][..n - 1] && todo[1..][n - 1..] == todo[n..];
      assert todo[..n] == [todo[0]] + todo[1..][..n - 1];
      assert t.late - {todo[0]} - SetOf(todo[1..][..n - 1]) == t.late - SetOf(todo[..n]);
    }
  }

  /** An undisturbed pass is a run, and leaves what the projector's method promises. */
  lemma PassIsARun(t: Tables, since: Option<Stamp>, advance: bool)
    requires t.pass.None?
    ensures Allowed(t, PassSteps(t, since, advance))
    ensures var usable, t' := Source(t, since), Run(t, PassSteps(t, since, advance));
            && t'.events == t.events && t'.pass.None?
            && t'.usage == RecomputedAll(t.usage, t.events, Dirty(usable))
            && t'.watermark == (if advance && usable != [] then Newest(usable) else t.watermark)
            && t'.late == (if advance && usable != [] then t.late + SkippedBuckets(t.events, t.watermark, usable)
                           else t.late) - SetOf(Dirty(usable))
  {
    hide UsableFrom, SkippedBuckets, RecomputedAll;
    var scanned := ScanStep(t, since, advance);
    OneStep(t, Scan(since, advance));
    var dirty := Dirty(Source(t, since));
    if Source(t, since) == [] {
      assert scanned == t && t.late - SetOf(Dirty([])) == t.late;
      assert RecomputedAll(t.usage, t.events, []) == t.usage by { NothingRecomputed(t.usage, t.events); }
    } else {
      BucketsRun(scanned, |dirty|);
      assert dirty[..|dirty|] == dirty && dirty[|dirty|..] == [];
      var done := Run(scanned, BucketSteps(|dirty|));
      OneStep(done, Finish);
      RunsJoin(scanned, BucketSteps(|dirty|), [Finish]);
      RunsJoin(t, [Scan(since, advance)], BucketSteps(|dirty|) + [Finish]);
    }
  }

  lemma NothingRecomputed(usage: set<UsageRow>, events: seq<Event>)
    ensures RecomputedAll(usage, events, []) == usage
  {
  }

  lemma {:induction false} RecomputedAllMatch(
      usage: set<UsageRow>, events: seq<Event>, buckets: seq<Bucket>, b: Bucket)
    ensures InBucket(RecomputedAll(usage, events, buckets), b)
            == if b in buckets then InBucket(FromScratch(events), b) else InBucket(usage, b)
  {
    hide FromScratch, InBucket, Recomputed;
    if buckets != [] {
      var front, last := buckets[..|buckets| - 1], buckets[|buckets| - 1];
      assert buckets == front + [last];
      RecomputedAllMatch(usage, events, front, b);
      RecomputedMatches(Tables(events, RecomputedAll(usage, events, front), 0, None, {}), last, b);
    }
  }

  /** A pass puts right every bucket it touches and disturbs no other. */
  lemma PassMatches(t: Tables, since: Option<Stamp>, advance: bool, b: Bucket)
    requires t.pass.None?
    ensures Allowed(t, PassSteps(t, since, advance))
    ensures Matches(Run(t, PassSteps(t, since, advance)), b) <==> b in Dirty(Source(t, since)) || Matches(t, b)
  {
    hide Run, Allowed, PassSteps, Source, RecomputedAll, FromScratch, InBucket;
    PassIsARun(t, since, advance);
    RecomputedAllMatch(t.usage, t.events, Dirty(Source(t, since)), b);
  }

  // ---- Progress -------------------------------------------------------------------------------------------

  lemma {:induction false} AfterShrinks(events: seq<Event>, from: Stamp, to: Stamp)
    requires from <= to
    ensures |After(events, to)| <= |After(events, from)|
    ensures (exists e :: e in events && from < e.receivedAt <= to) ==> |After(events, to)| < |After(events, from)|
  {
    if events != [] {
      var front, last := events[..|events| - 1], events[|events| - 1];
      assert events == front + [last];
      AfterShrinks(front, from, to);
    }
  }

  function ForwardPass(t: Tables): (r: Tables)
    requires t.pass.None?
    ensures r.pass.None?
  {
    PassIsARun(t, None, true);
    Run(t, PassSteps(t, None, true))
  }

  /** Every forward pass with a backlog advances the watermark strictly, and the backlog shrinks. */
  lemma ForwardPassAdvances(t: Tables)
    requires t.pass.None? && !CaughtUp(t)
    ensures t.watermark < ForwardPass(t).watermark
    ensures ForwardPass(t).events == t.events
    ensures |After(t.events, ForwardPass(t).watermark)| < |After(t.events, t.watermark)|
  {
    hide Run, Allowed, PassSteps, UsableFrom, RecomputedAll, SkippedBuckets;
    PassIsARun(t, None, true);
    UsableFacts(t.events, t.watermark);
    var usable := Source(t, None);
    assert usable[|usable| - 1] in usable;
    AfterShrinks(t.events, t.watermark, Newest(usable));
  }

  function Passes(t: Tables, n: nat): (r: Tables)
    requires t.pass.None?
    ensures r.pass.None?
    decreases n
  {
    if n == 0 then t else Passes(ForwardPass(t), n - 1)
  }

  /** With nothing new arriving, as many passes as there are rows waiting is always enough. */
  lemma {:induction false} PassesCatchUp(t: Tables, n: nat)
    requires t.pass.None? && n >= |After(t.events, t.watermark)|
    ensures CaughtUp(Passes(t, n)) && Passes(t, n).events == t.events
    decreases n
  {
    hide ForwardPass;
    AfterMembers(t.events, t.watermark);
    if n > 0 {
      if CaughtUp(t) {
        ForwardPassRests(t);
        PassesRest(t, n);
      } else {
        ForwardPassAdvances(t);
        PassesCatchUp(ForwardPass(t), n - 1);
      }
    }
  }

  lemma ForwardPassRests(t: Tables)
    requires CaughtUp(t)
    ensures ForwardPass(t) == t
  {
    hide UsableFrom, SkippedBuckets;
    UsableFacts(t.events, t.watermark);
    assert Source(t, None) == [];
    PassIsARun(t, None, true);
  }

  lemma {:induction false} PassesRest(t: Tables, n: nat)
    requires CaughtUp(t)
    ensures Passes(t, n) == t
    decreases n
  {
    if n > 0 {
      ForwardPassRests(t);
      PassesRest(t, n - 1);
    }
  }

  // ---- Late arrivals --------------------------------------------------------------------------------------

  /** A sample that changes nothing: no seconds, into a row whose count has run out. */
  predicate NoEffect(events: seq<Event>, e: Event) {
    e.sample.None?
    || (e.sample.value.foregroundS == 0 && e.sample.value.activeS == 0
        && TotalsOf(events, KeyOf(e)).n >= SMALLINT_MAX)
  }

  /**
    An event that commits at or behind the watermark is never picked up by a forward pass:
    caught up stays caught up, the next pass does nothing, and the table is then wrong
    exactly when the event counts for something.
   */
  lemma LateArrivalIsMissed(t: Tables, e: Event)
    requires CaughtUp(t) && t.usage == FromScratch(t.events) && e.receivedAt <= t.watermark
    ensures var t' := Apply(t, Arrive(e));
            && CaughtUp(t') && ForwardPass(t') == t'
            && (t'.usage == FromScratch(t'.events) <==> NoEffect(t.events, e))
  {
    hide ForwardPass, FromScratch;
    var t' := Apply(t, Arrive(e));
    ForwardPassRests(t');
    OneMoreEvent(t.events, e);
  }

  lemma OneMoreEvent(events: seq<Event>, e: Event)
    ensures FromScratch(events + [e]) == FromScratch(events) <==> NoEffect(events, e)
  {
    assert (events + [e])[..|events|] == events;
    if e.sample.Some? {
      var key := KeyOf(e);
      KeysGrow(events, e, key);
      assert RowFor(key, TotalsOf(events + [e], key)) in FromScratch(events + [e]);
      OneRowAKey(events);
      OneRowAKey(events + [e]);
      if NoEffect(events, e) {
        CountedHasKey(events, key);
      }
    }
    if NoEffect(events, e) {
      forall row ensures row in FromScratch(events + [e]) <==> row in FromScratch(events) {
        KeysGrow(events, e, row.key);
      }
    }
  }

  lemma OneRowAKey(events: seq<Event>)
    ensures forall row :: row in FromScratch(events) ==> row == RowFor(row.key, TotalsOf(events, row.key))
  {
  }

  lemma CountedHasKey(events: seq<Event>, key: Key)
    requires TotalsOf(events, key).n > 0
    ensures key in KeysOf(events)
  {
    if key !in KeysOf(events) {
      NoKeyNoTotals(events, key);
      assert false;
    }
  }

  /**
    The nightly side pass leaves the table exact if and only if it reaches every late bucket
    that is wrong, and it leaves the watermark where it is.
   */
  lemma NightlyPassRepairs(steps: seq<Step>, since: Stamp)
    requires Allowed(EMPTY, steps) && CaughtUp(Run(EMPTY, steps))
    ensures var t := Run(EMPTY, steps);
            && Allowed(t, PassSteps(t, Some(since), false))
            && var t' := Run(t, PassSteps(t, Some(since), false));
            && t'.watermark == t.watermark
            && (t'.usage == FromScratch(t.events)
                <==> forall b :: b in t.late ==> b in Dirty(UsableFrom(t.events, since)) || Matches(t, b))
  {
    hide Run, Allowed, PassSteps, UsableFrom, FromScratch, CaughtUp, RecomputedAll, SkippedBuckets, Matches;
    var t := Run(EMPTY, steps);
    CaughtUpPasses(t);
    PassIsARun(t, Some(since), false);
    var t' := Run(t, PassSteps(t, Some(since), false));
    forall b: Bucket
      ensures Matches(t', b) <==> b in Dirty(UsableFrom(t.events, since)) || Matches(t, b)
      ensures b !in t.late ==> Matches(t, b)
    {
      PassMatches(t, Some(since), false, b);
      if b !in t.late {
        CaughtUpIsExact(steps, b);
      }
    }
    ExactBucketByBucket(t');
  }

  lemma ExactBucketByBucket(t: Tables)
    ensures t.usage == FromScratch(t.events) <==> forall b: Bucket :: Matches(t, b)
  {
    hide FromScratch;
    if forall b: Bucket :: Matches(t, b) {
      forall row ensures row in t.usage <==> row in FromScratch(t.events) {
        assert Matches(t, row.key.bucket);
        assert row in t.usage <==> row in InBucket(t.usage, row.key.bucket);
      }
    }
  }

  // ---- Passes that die ------------------------------------------------------------------------------------

  /**
    What a crash does to each bucket: the one whose rows were deleted and not yet inserted is
    right only if it has none to insert, and every other stays as it was.
   */
  lemma CrashTearsExactly(steps: seq<Step>, b: Bucket)
    requires Allowed(EMPTY, steps)
    ensures var t := Run(EMPTY, steps);
            Matches(Apply(t, Crash), b)
            <==> if Torn(t, b) then InBucket(FromScratch(t.events), b) == {} else Matches(t, b)
  {
    hide Run, Allowed, FromScratch, InBucket, Quiet;
    EmptyIsExact();
    InvHolds(EMPTY, steps);
  }

  /**
    Which crashes leave a caught-up table wrong: exactly those between the delete and the
    insert of a bucket that has samples.
   */
  lemma CrashLeavesWrongExactly(steps: seq<Step>)
    requires Allowed(EMPTY, steps) && Run(EMPTY, steps).late == {} && CaughtUp(Apply(Run(EMPTY, steps), Crash))
    ensures var t := Run(EMPTY, steps);
            Apply(t, Crash).usage == FromScratch(t.events)
            <==> forall b :: Torn(t, b) ==> InBucket(FromScratch(t.events), b) == {}
  {
    hide Run, Allowed, FromScratch, InBucket, Matches;
    var t := Run(EMPTY, steps);
    ExactBucketByBucket(Apply(t, Crash));
    EmptyIsExact();
    InvHolds(EMPTY, steps);
    forall b: Bucket
      ensures Matches(Apply(t, Crash), b) <==> (Torn(t, b) ==> InBucket(FromScratch(t.events), b) == {})
    {
      CrashTearsExactly(steps, b);
      if !Torn(t, b) {
        assert Quiet(t.events, b, t.watermark);
      }
    }
  }

  /** A nightly pass that dies after emptying its bucket number `k`. */
  function NightlyCrash(since: Stamp, k: nat): seq<Step> {
    [Scan(Some(since), false)] + (BucketSteps(k) + ([Count] + ([Clear] + [Crash])))
  }

  lemma NightlyCrashRuns(t: Tables, since: Stamp, k: nat)
    requires CaughtUp(t) && k < |Dirty(UsableFrom(t.events, since))|
    ensures Allowed(t, NightlyCrash(since, k))
    ensures var dirty, t' := Dirty(UsableFrom(t.events, since)), Run(t, NightlyCrash(since, k));
            && t'.usage == RecomputedAll(t.usage, t.events, dirty[..k])
                           - InBucket(RecomputedAll(t.usage, t.events, dirty[..k]), dirty[k])
            && t'.events == t.events && t'.watermark == t.watermark && t'.pass.None?
            && t'.late == t.late - SetOf(dirty[..k]) + {dirty[k]}
  {
    hide UsableFrom, Dirty, RecomputedAll, FromScratch, InBucket;
    var dirty := Dirty(UsableFrom(t.events, since));
    assert UsableFrom(t.events, since) != [] by { NothingDirty(UsableFrom(t.events, since)); }
    var scanned := ScanStep(t, Some(since), false);
    OneStep(t, Scan(Some(since), false));
    BucketsRun(scanned, k);
    var there := Run(scanned, BucketSteps(k));
    var counted := Apply(there, Count);
    var cleared := Apply(counted, Clear);
    OneStep(there, Count);
    OneStep(counted, Clear);
    OneStep(cleared, Crash);
    RunsJoin(counted, [Clear], [Crash]);
    RunsJoin(there, [Count], [Clear] + [Crash]);
    RunsJoin(scanned, BucketSteps(k), [Count] + ([Clear] + [Crash]));
    RunsJoin(t, [Scan(Some(since), false)], BucketSteps(k) + ([Count] + ([Clear] + [Crash])));
    assert Quiet(t.events, dirty[k], t.watermark);
  }

  lemma NothingDirty(rows: seq<Event>)
    ensures Dirty(rows) != [] ==> rows != []
  {
  }

  /**
    From an exact, caught-up table: after such a crash no forward pass does anything, and the
    table is wrong exactly when the emptied bucket has samples; from then on a nightly pass
    makes it right exactly when it reaches that bucket.
   */
  lemma NightlyCrashWaitsForANightlyPass(t: Tables, since: Stamp, k: nat, again: Stamp)
    requires CaughtUp(t) && t.usage == FromScratch(t.events) && k < |Dirty(UsableFrom(t.events, since))|
    ensures Allowed(t, NightlyCrash(since, k))
    ensures var b, t' := Dirty(UsableFrom(t.events, since))[k], Run(t, NightlyCrash(since, k));
            && CaughtUp(t') && ForwardPass(t') == t'
            && (t'.usage == FromScratch(t.events) <==> InBucket(FromScratch(t.events), b) == {})
            && Allowed(t', PassSteps(t', Some(again), false))
            && (Run(t', PassSteps(t', Some(again), false)).usage == FromScratch(t.events)
                <==> b in Dirty(UsableFrom(t.events, again)) || InBucket(FromScratch(t.events), b) == {})
  {
    hide Run, Allowed, NightlyCrash, PassSteps, UsableFrom, Dirty, RecomputedAll, FromScratch, InBucket, ForwardPass;
    NightlyCrashRuns(t, since, k);
    var dirty, t' := Dirty(UsableFrom(t.events, since)), Run(t, NightlyCrash(since, k));
    var b := dirty[k];
    ForwardPassRests(t');
    forall x: Bucket ensures Matches(t', x) <==> x != b || InBucket(FromScratch(t.events), b) == {} {
      RecomputedAllMatch(t.usage, t.events, dirty[..k], x);
      EmptiedBucket(RecomputedAll(t.usage, t.events, dirty[..k]), b, x);
    }
    assert Matches(t', b) <==> InBucket(FromScratch(t.events), b) == {};
    ExactBucketByBucket(t');
    PassIsARun(t', Some(again), false);
    var t'' := Run(t', PassSteps(t', Some(again), false));
    forall x: Bucket
      ensures Matches(t'', x)
              <==> x in Dirty(UsableFrom(t.events, again)) || x != b || InBucket(FromScratch(t.events), b) == {}
    {
      PassMatches(t', Some(again), false, x);
    }
    assert Matches(t'', b) <==> b in Dirty(UsableFrom(t.events, again)) || InBucket(FromScratch(t.events), b) == {};
    ExactBucketByBucket(t'');
  }

  lemma EmptiedBucket(usage: set<UsageRow>, bucket: Bucket, b: Bucket)
    ensures InBucket(usage - InBucket(usage, bucket), b) == if b == bucket then {} else InBucket(usage, b)
  {
  }

  lemma CaughtUpPasses(t: Tables)
    requires CaughtUp(t)
    ensures t.pass.None?
  {
  }
}
