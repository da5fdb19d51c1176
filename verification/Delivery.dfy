/**
  A line's whole journey: spool, segment, queue, server. Appends are atomic; the sync
  process may die between any two steps, and any reply may be lost. Lines are accounted for
  one appended occurrence at a time.
 */
module Delivery {
  import opened Basics
  import opened QueuePolicy
  import opened Events
  import opened Queue
  import Evictions = Eviction
  import opened SpoolReader
  import opened EventsRoute
  import opened SyncDaemon

  /** A request under way: what it carries, and how far it has come. */
  datatype Flight = Flight(rows: seq<Row>, served: bool, acked: bool)

  /** A process read the segment of this name, whose first line was this occurrence. */
  datatype Reading = Reading(boot: BootId, name: SegmentName, first: nat)

  /** A stretch of appended occurrences. */
  datatype Range = Range(first: nat, n: nat) {
    predicate Covers(k: nat) {
      first <= k < first + n
    }
  }

  /**
    The spool and the queue are on disk and `stored` is the server's. `ingested` (segments
    read but not yet deleted), `flight` and `unreported` (rows evicted, their receipt still
    to come) live in the sync process. The rest is history: all lines appended, where the
    live file and each segment begin among them, who read what, the occurrences in segments
    deleted unread, the rows named as refused, dropped or evicted, those evicted without a
    word, and how many were evicted and reported.
   */
  datatype Pipeline = Pipeline(
    live: seq<Line>, segments: seq<Segment>, queue: seq<Row>, stored: seq<Row>,
    ingested: set<SegmentName>, flight: Option<Flight>, unreported: seq<Row>, boot: BootId,
    appended: seq<Line>, start: nat, origin: map<SegmentName, nat>, readings: set<Reading>, unread: set<Range>,
    named: seq<Row>, forgotten: seq<Row>, evicted: nat, reported: nat, minted: set<nat>)

  datatype Step =
    | Append(line: Line)
    | Rotate(stamp: SegmentName)
    | Ingest(segment: Segment, at: Moment)
    | Unlink(segment: Segment)
    | Local(row: Row)
    | Evict(eviction: Eviction)
    | EvictFails
    | Receipt(row: Row)
    | Send(size: nat)
    | Serve
    | Fail
    | AckAccepted
    | AckRejected
    | Drop
    | Crash(boot: BootId)

  function Fresh(boot: BootId): Pipeline {
    Pipeline([], [], [], [], {}, None, [], boot, [], 0, map[], {}, {}, [], [], 0, 0, {})
  }

  function Sent(p: Pipeline, flaws: Row -> set<Field>): seq<Raw>
    requires p.flight.Some?
  {
    Bodies(p.flight.value.rows, flaws)
  }

  predicate Mints(p: Pipeline, row: Row) {
    row.eventId.Minted? && row.eventId.serial !in p.minted
  }

  predicate Enabled(p: Pipeline, step: Step) {
    match step
    case Append(_) => true
    case Rotate(_) => true
    case Ingest(segment, _) => segment in p.segments && segment.name in p.origin
    case Unlink(segment) => segment in p.segments && segment.name in p.ingested && segment.name in p.origin
    case Local(row) => Mints(p, row)
    case Evict(_) => true
    case EvictFails => true
    case Receipt(row) => Mints(p, row) && p.unreported != []
    case Send(size) => p.flight.None? && size <= BATCH_SIZE
    case Serve => p.flight.Some? && !p.flight.value.served
    case Fail => p.flight.Some?
    case AckAccepted => p.flight.Some? && p.flight.value.served && !p.flight.value.acked
    case AckRejected => p.flight.Some? && p.flight.value.acked
    case Drop => p.flight.Some? && !p.flight.value.served
    case Crash(_) => true
  }

  /** Add one event of the daemon's own. */
  function Enqueue(p: Pipeline, row: Row): Pipeline
    requires row.eventId.Minted?
  {
    p.(queue := Enqueued(p.queue, [row]), minted := p.minted + {row.eventId.serial})
  }

  /** An eviction whose receipt will never come. */
  function Forget(p: Pipeline): Pipeline {
    p.(unreported := [], forgotten := p.forgotten + p.unreported)
  }

  function Apply(p: Pipeline, step: Step, flaws: Row -> set<Field>): Pipeline
    requires Enabled(p, step)
  {
    match step
    case Append(line) => p.(live := p.live + [line], appended := p.appended + [line])
    case Rotate(stamp) =>
      if p.live == [] || Exists(p.segments, stamp) then p
      else
        p.(live := [], segments := p.segments + [Segment(stamp, p.live)],
           start := |p.appended|, origin := p.origin[stamp := p.start])
    case Ingest(segment, at) =>
      p.(queue := Enqueued(p.queue, Parsed(segment.lines, p.boot, segment.name, at)),
         ingested := p.ingested + {segment.name},
         readings := p.readings + {Reading(p.boot, segment.name, p.origin[segment.name])})
    case Unlink(segment) =>
      p.(segments := Removed(p.segments, segment.name), ingested := p.ingested - {segment.name},
         unread := if Readable(segment.lines) then p.unread
                   else p.unread + {Range(p.origin[segment.name], |segment.lines|)})
    case Local(row) => Enqueue(p, row)
    case Evict(e) =>
      p.(queue := AfterEviction(p.queue, e), unreported := p.unreported + Victims(p.queue, e),
         evicted := p.evicted + |Victims(p.queue, e)|)
    case EvictFails => Forget(p)
    case Receipt(row) =>
      Enqueue(p, row).(unreported := [], named := p.named + p.unreported,
                       reported := p.reported + |p.unreported|)
    case Send(size) => p.(flight := Some(Flight(Oldest(p.queue, size), false, false)))
    case Serve =>
      p.(stored := Enqueued(p.stored, Accepted(Sent(p, flaws))),
         flight := Some(p.flight.value.(served := true)))
    case Fail => p.(flight := None)
    case AckAccepted =>
      p.(queue := Without(p.queue, Named(IdsOf(Accepted(Sent(p, flaws))))),
         flight := Some(p.flight.value.(acked := true)))
    case AckRejected =>
      p.(queue := Without(p.queue, RejectedIds(Rejected(Sent(p, flaws)))),
         named := p.named + Flawed(p.flight.value.rows, flaws), flight := None)
    case Drop =>
      p.(queue := Without(p.queue, Named(IdsOf(p.flight.value.rows))),
         named := p.named + p.flight.value.rows, flight := None)
    case Crash(boot) => Forget(p).(flight := None, ingested := {}, boot := boot)
  }

  predicate Allowed(p: Pipeline, steps: seq<Step>, flaws: Row -> set<Field>)
    decreases |steps|
  {
    steps == [] || (Enabled(p, steps[0]) && Allowed(Apply(p, steps[0], flaws), steps[1..], flaws))
  }

  function Run(p: Pipeline, steps: seq<Step>, flaws: Row -> set<Field>): Pipeline
    requires Allowed(p, steps, flaws)
    decreases |steps|
  {
    if steps == [] then p else Run(Apply(p, steps[0], flaws), steps[1..], flaws)
  }

  // ---- Ids ----------------------------------------------------------------------------------------------

  /** A derived id names the row's line, and its timestamp if that could be read; a minted one is on record. */
  predicate Proper(minted: set<nat>, row: Row) {
    && NamesItsLine(row)
    && (row.eventId.Derived? && row.line.ts.Some? ==> row.eventId.ts == row.line.ts.value)
    && (row.eventId.Minted? ==> row.eventId.serial in minted)
  }

  predicate AllProper(minted: set<nat>, rows: seq<Row>) {
    forall row :: row in rows ==> Proper(minted, row)
  }

  predicate IdsInv(p: Pipeline) {
    && DistinctIds(p.queue) && DistinctIds(p.stored)
    && AllProper(p.minted, p.queue) && AllProper(p.minted, p.stored)
    && (p.flight.Some? ==> AllProper(p.minted, p.flight.value.rows))
  }

  lemma {:induction false} EnqueuedFrom(rows: seq<Row>, added: seq<Row>)
    ensures forall row :: row in Enqueued(rows, added) ==> row in rows || row in added
  {
    if added != [] {
      var front, last := added[..|added| - 1], added[|added| - 1];
      EnqueuedFrom(rows, front);
      assert added == front + [last];
    }
  }

  lemma EnqueuedProper(minted: set<nat>, rows: seq<Row>, added: seq<Row>)
    requires AllProper(minted, rows) && AllProper(minted, added)
    ensures AllProper(minted, Enqueued(rows, added))
  {
    EnqueuedFrom(rows, added);
  }

  lemma ParsedProper(minted: set<nat>, segment: Segment, boot: BootId, at: Moment)
    ensures AllProper(minted, Parsed(segment.lines, boot, segment.name, at))
  {
    ParsedIds(segment.lines, boot, segment.name, at);
  }

  lemma MoreMintedProper(minted: set<nat>, more: set<nat>, rows: seq<Row>)
    requires minted <= more && AllProper(minted, rows)
    ensures AllProper(more, rows)
  {
  }

  lemma EvictionProper(minted: set<nat>, rows: seq<Row>, e: Eviction)
    requires DistinctIds(rows) && AllProper(minted, rows)
    ensures DistinctIds(AfterEviction(rows, e)) && AllProper(minted, AfterEviction(rows, e))
  {
    hide AfterEviction, Victims, Proper;
    Evictions.EvictionSplits(rows, e);
    var left := AfterEviction(rows, e);
    forall row | row in left ensures row in rows {
      assert row in multiset(left) && row in multiset(rows);
    }
  }

  lemma WithoutProper(minted: set<nat>, rows: seq<Row>, ids: set<EventId>)
    requires DistinctIds(rows) && AllProper(minted, rows)
    ensures DistinctIds(Without(rows, ids)) && AllProper(minted, Without(rows, ids))
  {
    WithoutMembers(rows, ids);
    WithoutKeepsDistinct(rows, ids);
  }

  lemma IdsKept(p: Pipeline, step: Step, flaws: Row -> set<Field>)
    requires IdsInv(p) && Enabled(p, step)
    ensures IdsInv(Apply(p, step, flaws))
  {
    hide Proper, DistinctIds, Enqueued, Without, Parsed, Accepted, Rejected, Bodies, Flawed, AfterEviction, Victims;
    match step {
      case Ingest(segment, at) =>
        var rows := Parsed(segment.lines, p.boot, segment.name, at);
        ParsedProper(p.minted, segment, p.boot, at);
        EnqueuedHasAll(p.queue, rows);
        EnqueuedProper(p.minted, p.queue, rows);
      case Local(row) => EnqueueKeepsIds(p, row);
      case Receipt(row) => EnqueueKeepsIds(p, row);
      case Evict(e) =>
        EvictionProper(p.minted, p.queue, e);
      case Serve =>
        ReplyPartitionsBatch(p.flight.value.rows, flaws);
        EnqueuedHasAll(p.stored, Accepted(Sent(p, flaws)));
        EnqueuedProper(p.minted, p.stored, Accepted(Sent(p, flaws)));
      case AckAccepted =>
        WithoutProper(p.minted, p.queue, Named(IdsOf(Accepted(Sent(p, flaws)))));
      case AckRejected =>
        WithoutProper(p.minted, p.queue, RejectedIds(Rejected(Sent(p, flaws))));
      case Drop =>
        WithoutProper(p.minted, p.queue, Named(IdsOf(p.flight.value.rows)));
      case _ =>
    }
  }

  /** The daemon's own event is queued, for its id is new, and nothing else changes. */
  lemma EnqueueKeepsIds(p: Pipeline, row: Row)
    requires IdsInv(p) && Mints(p, row)
    ensures IdsInv(Enqueue(p, row)) && Enqueue(p, row).queue == p.queue + [row]
  {
    hide DistinctIds, Proper;
    var minted := p.minted + {row.eventId.serial};
    EnqueuedHasAll(p.queue, [row]);
    EnqueuedSingle(p.queue, row);
    MintedIsNew(p, row);
    MoreMintedProper(p.minted, minted, p.queue);
    MoreMintedProper(p.minted, minted, p.stored);
    if p.flight.Some? {
      MoreMintedProper(p.minted, minted, p.flight.value.rows);
    }
    assert AllProper(minted, [row]) by { MintedProper(minted, row); }
    EnqueuedProper(minted, p.queue, [row]);
  }

  lemma MintedProper(minted: set<nat>, row: Row)
    requires row.eventId.Minted? && row.eventId.serial in minted
    ensures AllProper(minted, [row])
  {
  }

  lemma MintedIsNew(p: Pipeline, row: Row)
    requires AllProper(p.minted, p.queue) && Mints(p, row)
    ensures !HasId(p.queue, row.eventId)
  {
    assert forall r :: r in p.queue && r.eventId == row.eventId ==> !Proper(p.minted, r);
  }

  lemma EnqueuedSingle(rows: seq<Row>, row: Row)
    ensures Enqueued(rows, [row]) == Inserted(rows, row)
  {
    assert [row][..0] == [];
  }

  // ---- What is downstream stays downstream -----------------------------------------------------------------

  /** Past the spool: queued, on the server, named, or evicted with or without a receipt to come. */
  predicate Downstream(p: Pipeline, id: EventId) {
    HasId(p.queue, id) || HasId(p.stored, id) || HasId(p.named, id) || HasId(p.unreported, id) || HasId(p.forgotten, id)
  }

  /** The server answered, so every clean row sent is stored. */
  predicate ServedInv(p: Pipeline, flaws: Row -> set<Field>) {
    p.flight.Some? && p.flight.value.served ==>
      forall row :: row in Accepted(Sent(p, flaws)) ==> HasId(p.stored, row.eventId)
  }

  predicate AckedInv(p: Pipeline) {
    p.flight.Some? && p.flight.value.acked ==> p.flight.value.served
  }

  lemma MoreRowsKeepId(rows: seq<Row>, more: seq<Row>, id: EventId)
    requires rows <= more && HasId(rows, id)
    ensures HasId(more, id)
  {
    var row :| row in rows && row.eventId == id;
    assert row in more;
  }

  lemma InEither(a: seq<Row>, b: seq<Row>, id: EventId)
    ensures HasId(a + b, id) <==> HasId(a, id) || HasId(b, id)
  {
    if HasId(b, id) {
      var row :| row in b && row.eventId == id;
      assert row in a + b;
    }
    if HasId(a, id) {
      MoreRowsKeepId(a, a + b, id);
    }
  }

  lemma RemovedIds(queue: seq<Row>, ids: set<EventId>, id: EventId)
    requires HasId(queue, id)
    ensures HasId(Without(queue, ids), id) || id in ids
  {
    var row :| row in queue && row.eventId == id;
    WithoutMembers(queue, ids);
    assert id !in ids ==> row in Without(queue, ids);
  }

  lemma EvictedIds(queue: seq<Row>, e: Eviction, id: EventId)
    requires DistinctIds(queue) && HasId(queue, id)
    ensures HasId(AfterEviction(queue, e), id) || HasId(Victims(queue, e), id)
  {
    hide AfterEviction, Victims, DistinctIds;
    Evictions.EvictionSplits(queue, e);
    var row :| row in queue && row.eventId == id;
    assert row in multiset(queue);
    assert row in multiset(AfterEviction(queue, e)) || row in multiset(Victims(queue, e));
  }

  lemma AcceptedAreStored(p: Pipeline, flaws: Row -> set<Field>, id: EventId)
    requires ServedInv(p, flaws) && p.flight.Some? && p.flight.value.served
    requires id in Named(IdsOf(Accepted(Sent(p, flaws))))
    ensures HasId(p.stored, id)
  {
    NamedIds(Accepted(Sent(p, flaws)), id);
  }

  lemma RejectedAreNamed(rows: seq<Row>, flaws: Row -> set<Field>, id: EventId)
    requires id in RejectedIds(Rejected(Bodies(rows, flaws)))
    ensures HasId(Flawed(rows, flaws), id)
  {
    ReplyPartitionsBatch(rows, flaws);
    FlawedMembers(rows, flaws);
  }

  /** No step takes an event out of all these places together. */
  lemma DownstreamKept(p: Pipeline, step: Step, flaws: Row -> set<Field>, id: EventId)
    requires DistinctIds(p.queue) && ServedInv(p, flaws) && AckedInv(p) && Enabled(p, step)
    requires Downstream(p, id)
    ensures Downstream(Apply(p, step, flaws), id)
  {
    hide HasId, DistinctIds, Enqueued, Without, Parsed, Accepted, Rejected, Bodies, Flawed, AfterEviction, Victims,
      ServedInv;
    var p' := Apply(p, step, flaws);
    if HasId(p.queue, id) {
      QueuedKept(p, step, flaws, id);
    } else if HasId(p.stored, id) {
      if step.Serve? {
        EnqueuedHasAll(p.stored, Accepted(Sent(p, flaws)));
      }
      MoreRowsKeepId(p.stored, p'.stored, id);
    } else if HasId(p.named, id) {
      MoreRowsKeepId(p.named, p'.named, id);
    } else if HasId(p.forgotten, id) {
      MoreRowsKeepId(p.forgotten, p'.forgotten, id);
    } else {
      UnreportedKept(p, step, flaws, id);
    }
  }

  lemma UnreportedKept(p: Pipeline, step: Step, flaws: Row -> set<Field>, id: EventId)
    requires Enabled(p, step) && HasId(p.unreported, id)
    ensures Downstream(Apply(p, step, flaws), id)
  {
    hide HasId, Enqueued, Without, Parsed, Accepted, Rejected, Bodies, Flawed, AfterEviction, Victims;
    match step {
      case Evict(e) => InEither(p.unreported, Victims(p.queue, e), id);
      case Receipt(_) => InEither(p.named, p.unreported, id);
      case EvictFails => InEither(p.forgotten, p.unreported, id);
      case Crash(_) => InEither(p.forgotten, p.unreported, id);
      case _ =>
    }
  }

  lemma QueuedKept(p: Pipeline, step: Step, flaws: Row -> set<Field>, id: EventId)
    requires DistinctIds(p.queue) && ServedInv(p, flaws) && AckedInv(p) && Enabled(p, step)
    requires HasId(p.queue, id)
    ensures Downstream(Apply(p, step, flaws), id)
  {
    hide HasId, DistinctIds, Enqueued, Without, Parsed, Accepted, Rejected, Bodies, Flawed, AfterEviction, Victims,
      ServedInv;
    match step {
      case Ingest(segment, at) =>
        var rows := Parsed(segment.lines, p.boot, segment.name, at);
        EnqueuedHasAll(p.queue, rows);
        MoreRowsKeepId(p.queue, Enqueued(p.queue, rows), id);
      case Local(row) =>
        EnqueuedHasAll(p.queue, [row]);
        MoreRowsKeepId(p.queue, Enqueued(p.queue, [row]), id);
      case Receipt(row) =>
        EnqueuedHasAll(p.queue, [row]);
        MoreRowsKeepId(p.queue, Enqueued(p.queue, [row]), id);
      case Evict(e) =>
        EvictedIds(p.queue, e, id);
        InEither(p.unreported, Victims(p.queue, e), id);
      case AckAccepted =>
        RemovedIds(p.queue, Named(IdsOf(Accepted(Sent(p, flaws)))), id);
        if id in Named(IdsOf(Accepted(Sent(p, flaws)))) {
          AcceptedAreStored(p, flaws, id);
        }
      case AckRejected =>
        var rows := p.flight.value.rows;
        RemovedIds(p.queue, RejectedIds(Rejected(Sent(p, flaws))), id);
        if id in RejectedIds(Rejected(Sent(p, flaws))) {
          RejectedAreNamed(rows, flaws, id);
        }
        InEither(p.named, Flawed(rows, flaws), id);
      case Drop =>
        var rows := p.flight.value.rows;
        RemovedIds(p.queue, Named(IdsOf(rows)), id);
        DroppedAreNamed(rows, id);
        InEither(p.named, rows, id);
      case _ =>
    }
  }

  lemma DroppedAreNamed(rows: seq<Row>, id: EventId)
    ensures id in Named(IdsOf(rows)) <==> HasId(rows, id)
  {
    NamedIds(rows, id);
  }

  // ---- Nothing is lost silently ------------------------------------------------------------------------------

  /** The id some process gave this occurrence: its line, at its place in a segment that process read. */
  predicate IsFor(p: Pipeline, id: EventId, k: nat) {
    && id.Derived? && k < |p.appended| && id.line == p.appended[k] && id.index <= k
    && Reading(id.boot, id.segment, k - id.index) in p.readings
  }

  /** Under an id of its own, the occurrence is past the spool. */
  ghost predicate Passed(p: Pipeline, k: nat) {
    exists id :: IsFor(p, id, k) && Downstream(p, id)
  }

  predicate Holds(p: Pipeline, s: Segment, k: nat) {
    s in p.segments && s.name in p.origin && Range(p.origin[s.name], |s.lines|).Covers(k)
  }

  predicate InSegment(p: Pipeline, k: nat) {
    exists s :: s in p.segments && Holds(p, s, k)
  }

  predicate Unread(p: Pipeline, k: nat) {
    exists r :: r in p.unread && r.Covers(k)
  }

  /** In the live file, in a segment, past the spool, or in a segment deleted unread. */
  ghost predicate Accounted(p: Pipeline, k: nat) {
    k >= p.start || InSegment(p, k) || Passed(p, k) || Unread(p, k)
  }

  ghost predicate AllAccounted(p: Pipeline) {
    forall k: nat :: k < |p.appended| && p.appended[k].event.Some? ==> Accounted(p, k)
  }

  /** The segment's lines are the stretch of occurrences it began with. */
  predicate PlacedInv(p: Pipeline, s: Segment) {
    && s.name in p.origin && p.origin[s.name] + |s.lines| <= p.start <= |p.appended|
    && s.lines == p.appended[p.origin[s.name]..p.origin[s.name] + |s.lines|]
  }

  predicate FilesInv(p: Pipeline) {
    && p.start <= |p.appended| && p.live == p.appended[p.start..]
    && (forall s :: s in p.segments ==> PlacedInv(p, s))
    && (forall a, b :: a in p.segments && b in p.segments && a.name == b.name ==> a == b)
    && (forall name :: name in p.ingested ==> Exists(p.segments, name))
  }

  ghost predicate Taken(p: Pipeline, s: Segment)
    requires s.name in p.origin
  {
    Readable(s.lines) ==> forall i :: 0 <= i < |s.lines| && s.lines[i].event.Some? ==> Passed(p, p.origin[s.name] + i)
  }

  /** A segment may be deleted once every line it can give is in the queue or past it. */
  ghost predicate IngestedInv(p: Pipeline) {
    forall s :: s in p.segments && s.name in p.ingested && s.name in p.origin ==> Taken(p, s)
  }

  ghost predicate Inv(p: Pipeline, flaws: Row -> set<Field>) {
    IdsInv(p) && ServedInv(p, flaws) && AckedInv(p) && FilesInv(p) && IngestedInv(p) && AllAccounted(p)
  }

  lemma AnswersKept(p: Pipeline, step: Step, flaws: Row -> set<Field>)
    requires ServedInv(p, flaws) && AckedInv(p) && Enabled(p, step)
    ensures ServedInv(Apply(p, step, flaws), flaws) && AckedInv(Apply(p, step, flaws))
  {
    hide Enqueued, Accepted, Rejected, Bodies, Flawed, Parsed, Without, AfterEviction, Victims;
    if step.Serve? {
      EnqueuedHasAll(p.stored, Accepted(Sent(p, flaws)));
    }
  }

  lemma FilesKept(p: Pipeline, step: Step, flaws: Row -> set<Field>)
    requires FilesInv(p) && Enabled(p, step)
    ensures FilesInv(Apply(p, step, flaws))
  {
    hide Enqueued, Accepted, Rejected, Bodies, Flawed, Parsed, Without, AfterEviction, Victims, Readable;
    match step {
      case Append(line) => AppendKeepsFiles(p, line, flaws);
      case Rotate(stamp) =>
        if p.live != [] && !Exists(p.segments, stamp) {
          RotateKeepsFiles(p, stamp, flaws);
        }
      case Unlink(segment) => UnlinkKeepsFiles(p, segment, flaws);
      case Ingest(segment, _) =>
        assert Exists(p.segments, segment.name);
        SameFiles(p, Apply(p, step, flaws));
      case _ => SameFiles(p, Apply(p, step, flaws));
    }
  }

  lemma SameFiles(p: Pipeline, p': Pipeline)
    requires FilesInv(p)
    requires p'.appended == p.appended && p'.live == p.live && p'.segments == p.segments
    requires p'.start == p.start && p'.origin == p.origin
    requires forall name :: name in p'.ingested ==> name in p.ingested || Exists(p.segments, name)
    ensures FilesInv(p')
  {
    hide Exists;
    forall s | s in p'.segments ensures PlacedInv(p', s) {
      assert PlacedInv(p, s);
    }
  }

  lemma AppendKeepsFiles(p: Pipeline, line: Line, flaws: Row -> set<Field>)
    requires FilesInv(p)
    ensures FilesInv(Apply(p, Append(line), flaws))
  {
    var p' := Apply(p, Append(line), flaws);
    forall s | s in p'.segments ensures PlacedInv(p', s) {
      assert PlacedInv(p, s);
    }
  }

  lemma RotateKeepsFiles(p: Pipeline, stamp: SegmentName, flaws: Row -> set<Field>)
    requires FilesInv(p) && p.live != [] && !Exists(p.segments, stamp)
    ensures FilesInv(Apply(p, Rotate(stamp), flaws))
  {
    var p' := Apply(p, Rotate(stamp), flaws);
    forall s | s in p'.segments ensures PlacedInv(p', s) {
      if s in p.segments {
        assert PlacedInv(p, s) && s.name != stamp;
      }
    }
    forall name | name in p'.ingested ensures Exists(p'.segments, name) {
      var s :| s in p.segments && s.name == name;
      assert s in p'.segments;
    }
  }

  lemma UnlinkKeepsFiles(p: Pipeline, segment: Segment, flaws: Row -> set<Field>)
    requires FilesInv(p) && Enabled(p, Unlink(segment))
    ensures FilesInv(Apply(p, Unlink(segment), flaws))
  {
    var p' := Apply(p, Unlink(segment), flaws);
    RemovedMembers(p.segments, segment.name);
    forall s | s in p'.segments ensures PlacedInv(p', s) {
      assert PlacedInv(p, s);
    }
    forall name | name in p'.ingested ensures Exists(p'.segments, name) {
      var s :| s in p.segments && s.name == name;
      assert s in p'.segments;
    }
  }

  lemma IsForKept(p: Pipeline, step: Step, flaws: Row -> set<Field>, id: EventId, k: nat)
    requires Enabled(p, step) && IsFor(p, id, k)
    ensures IsFor(Apply(p, step, flaws), id, k)
  {
    hide Enqueued, Accepted, Rejected, Bodies, Flawed, Parsed, Without, AfterEviction, Victims, Readable;
  }

  lemma PassedKept(p: Pipeline, step: Step, flaws: Row -> set<Field>, k: nat)
    requires IdsInv(p) && ServedInv(p, flaws) && AckedInv(p) && Enabled(p, step) && Passed(p, k)
    ensures Passed(Apply(p, step, flaws), k)
  {
    hide Apply, IsFor, Downstream, ServedInv;
    var id :| IsFor(p, id, k) && Downstream(p, id);
    IsForKept(p, step, flaws, id, k);
    DownstreamKept(p, step, flaws, id);
  }

  /** Ingesting a readable segment passes each of its occurrences on, under an id of its own. */
  lemma IngestTakes(p: Pipeline, segment: Segment, at: Moment, flaws: Row -> set<Field>)
    requires FilesInv(p) && Enabled(p, Ingest(segment, at))
    ensures Taken(Apply(p, Ingest(segment, at), flaws), segment)
  {
    hide Enqueued, DistinctIds, ParsedText;
    var p' := Apply(p, Ingest(segment, at), flaws);
    var rows := Parsed(segment.lines, p.boot, segment.name, at);
    assert PlacedInv(p, segment);
    EnqueuedHasAll(p.queue, rows);
    if Readable(segment.lines) {
      forall i | 0 <= i < |segment.lines| && segment.lines[i].event.Some?
        ensures Passed(p', p.origin[segment.name] + i)
      {
        ParsedAt(segment.lines, p.boot, segment.name, at, i);
        var id := RowOf(segment.lines[i], p.boot, segment.name, i, at).eventId;
        assert IsFor(p', id, p.origin[segment.name] + i) && Downstream(p', id);
      }
    }
  }

  lemma TakenKept(p: Pipeline, step: Step, flaws: Row -> set<Field>, s: Segment)
    requires IdsInv(p) && ServedInv(p, flaws) && AckedInv(p) && Enabled(p, step)
    requires s.name in p.origin && Taken(p, s)
    requires s.name in Apply(p, step, flaws).origin && Apply(p, step, flaws).origin[s.name] == p.origin[s.name]
    ensures Taken(Apply(p, step, flaws), s)
  {
    hide IdsInv, ServedInv, Passed, Apply;
    forall i | Readable(s.lines) && 0 <= i < |s.lines| && s.lines[i].event.Some?
      ensures Passed(Apply(p, step, flaws), p.origin[s.name] + i)
    {
      PassedKept(p, step, flaws, p.origin[s.name] + i);
    }
  }

  lemma IngestedKept(p: Pipeline, step: Step, flaws: Row -> set<Field>)
    requires Inv(p, flaws) && Enabled(p, step)
    ensures IngestedInv(Apply(p, step, flaws))
  {
    hide IdsInv, ServedInv, PlacedInv, Passed, AllAccounted, Readable, Enqueued, Accepted, Rejected, Bodies, Flawed,
      Parsed, Without, AfterEviction, Victims;
    var p' := Apply(p, step, flaws);
    if step.Unlink? {
      RemovedMembers(p.segments, step.segment.name);
    }
    forall s | s in p'.segments && s.name in p'.ingested && s.name in p'.origin ensures Taken(p', s) {
      if step.Ingest? && s.name == step.segment.name {
        IngestTakes(p, step.segment, step.at, flaws);
      } else if s in p.segments {
        TakenKept(p, step, flaws, s);
      }
    }
  }

  /** An unlinked segment's occurrences were passed on, or go unread. */
  lemma SegmentGone(p: Pipeline, s: Segment, flaws: Row -> set<Field>, k: nat)
    requires IngestedInv(p) && PlacedInv(p, s) && Enabled(p, Unlink(s)) && Holds(p, s, k)
    requires k < |p.appended| && p.appended[k].event.Some?
    ensures Passed(p, k) || Unread(Apply(p, Unlink(s), flaws), k)
  {
    hide Passed, Parsed;
    if Readable(s.lines) {
      assert Taken(p, s);
      assert s.lines[k - p.origin[s.name]] == p.appended[k];
    } else {
      var r := Range(p.origin[s.name], |s.lines|);
      assert r in Apply(p, Unlink(s), flaws).unread && r.Covers(k);
    }
  }

  lemma InSegmentKept(p: Pipeline, step: Step, flaws: Row -> set<Field>, k: nat)
    requires FilesInv(p) && IngestedInv(p) && Enabled(p, step) && InSegment(p, k)
    requires k < |p.appended| && p.appended[k].event.Some?
    ensures InSegment(Apply(p, step, flaws), k) || Unread(Apply(p, step, flaws), k) || (step.Unlink? && Passed(p, k))
  {
    hide Passed, Enqueued, Accepted, Rejected, Bodies, Flawed, Parsed, Without, AfterEviction, Victims, Readable;
    var p' := Apply(p, step, flaws);
    var s :| s in p.segments && Holds(p, s, k);
    assert PlacedInv(p, s);
    if step.Unlink? && s.name == step.segment.name {
      SegmentGone(p, s, flaws, k);
    } else {
      if step.Unlink? {
        RemovedMembers(p.segments, step.segment.name);
      }
      assert s in p'.segments;
      assert Holds(p', s, k);
    }
  }

  lemma AccountedKept(p: Pipeline, step: Step, flaws: Row -> set<Field>, k: nat)
    requires Inv(p, flaws) && Enabled(p, step)
    requires k < |p.appended| && p.appended[k].event.Some? && Accounted(p, k)
    ensures Accounted(Apply(p, step, flaws), k)
  {
    hide IdsInv, ServedInv, AllAccounted, Passed, InSegment, Unread, Enqueued, Accepted, Rejected, Bodies, Flawed,
      Parsed, Without, AfterEviction, Victims, Readable;
    var p' := Apply(p, step, flaws);
    if Passed(p, k) {
      PassedKept(p, step, flaws, k);
    } else if InSegment(p, k) {
      InSegmentKept(p, step, flaws, k);
    } else if Unread(p, k) {
      UnreadKept(p, step, flaws, k);
    } else if k < p'.start {
      RotatedIsInSegment(p, step, flaws, k);
    }
  }

  lemma UnreadKept(p: Pipeline, step: Step, flaws: Row -> set<Field>, k: nat)
    requires Enabled(p, step) && Unread(p, k)
    ensures Unread(Apply(p, step, flaws), k)
  {
    hide Enqueued, Accepted, Rejected, Bodies, Flawed, Parsed, Without, AfterEviction, Victims, Readable;
    var r :| r in p.unread && r.Covers(k);
    assert r in Apply(p, step, flaws).unread;
  }

  lemma RotatedIsInSegment(p: Pipeline, step: Step, flaws: Row -> set<Field>, k: nat)
    requires FilesInv(p) && Enabled(p, step) && p.start <= k < |p.appended| && k < Apply(p, step, flaws).start
    ensures InSegment(Apply(p, step, flaws), k)
  {
    hide Enqueued, Accepted, Rejected, Bodies, Flawed, Parsed, Without, AfterEviction, Victims, Readable;
    var p' := Apply(p, step, flaws);
    var s := Segment(step.stamp, p.live);
    assert s in p'.segments && Holds(p', s, k);
  }

  lemma AllAccountedKept(p: Pipeline, step: Step, flaws: Row -> set<Field>)
    requires Inv(p, flaws) && AllAccounted(p) && Enabled(p, step)
    ensures AllAccounted(Apply(p, step, flaws))
  {
    hide Inv, InSegment, Passed, Unread;
    var p' := Apply(p, step, flaws);
    NewIsLive(p, step, flaws);
    forall k: nat | k < |p'.appended| && p'.appended[k].event.Some? ensures Accounted(p', k) {
      if k < |p.appended| {
        AccountedKept(p, step, flaws, k);
      }
    }
  }

  lemma NewIsLive(p: Pipeline, step: Step, flaws: Row -> set<Field>)
    requires Inv(p, flaws) && Enabled(p, step)
    ensures p.appended <= Apply(p, step, flaws).appended
    ensures |Apply(p, step, flaws).appended| > |p.appended| ==> Apply(p, step, flaws).start <= |p.appended|
  {
    hide IdsInv, IngestedInv, AllAccounted;
  }

  lemma InvKept(p: Pipeline, step: Step, flaws: Row -> set<Field>)
    requires Inv(p, flaws) && Enabled(p, step)
    ensures Inv(Apply(p, step, flaws), flaws)
  {
    hide IdsInv, ServedInv, AckedInv, FilesInv, IngestedInv, AllAccounted, Apply;
    IdsKept(p, step, flaws);
    AnswersKept(p, step, flaws);
    FilesKept(p, step, flaws);
    IngestedKept(p, step, flaws);
    AllAccountedKept(p, step, flaws);
  }

  lemma {:induction false} InvHolds(p: Pipeline, steps: seq<Step>, flaws: Row -> set<Field>)
    requires Inv(p, flaws) && Allowed(p, steps, flaws)
    ensures Inv(Run(p, steps, flaws), flaws)
    decreases |steps|
  {
    hide Inv, Apply, Enabled;
    if steps != [] {
      InvKept(p, steps[0], flaws);
      InvHolds(Apply(p, steps[0], flaws), steps[1..], flaws);
    }
  }

  lemma RunKeepsInv(boot: BootId, steps: seq<Step>, flaws: Row -> set<Field>)
    requires Allowed(Fresh(boot), steps, flaws)
    ensures Inv(Run(Fresh(boot), steps, flaws), flaws)
  {
    InvHolds(Fresh(boot), steps, flaws);
  }

  /**
    Over every run, through crashes and lost replies, each occurrence of a line that parses
    is in the spool or, under an id of its own, queued, on the server, named as refused or
    dropped, or evicted; the one other place is a segment deleted unread.
   */
  lemma NeverLosesSilently(boot: BootId, steps: seq<Step>, flaws: Row -> set<Field>)
    requires Allowed(Fresh(boot), steps, flaws)
    ensures AllAccounted(Run(Fresh(boot), steps, flaws))
  {
    RunKeepsInv(boot, steps, flaws);
  }

  // ---- Evictions and their receipts ---------------------------------------------------------------------------

  /** No process died, and no eviction failed half-way, with a receipt still to come. */
  predicate ReceiptsInTime(p: Pipeline, steps: seq<Step>, flaws: Row -> set<Field>)
    requires Allowed(p, steps, flaws)
    decreases |steps|
  {
    steps == [] ||
    (((steps[0].Crash? || steps[0].EvictFails?) ==> p.unreported == [])
     && ReceiptsInTime(Apply(p, steps[0], flaws), steps[1..], flaws))
  }

  lemma ReceiptStep(p: Pipeline, step: Step, flaws: Row -> set<Field>)
    requires Enabled(p, step)
    requires p.evicted == p.reported + |p.unreported| + |p.forgotten|
    ensures var p' := Apply(p, step, flaws);
            && p'.evicted == p'.reported + |p'.unreported| + |p'.forgotten|
            && p'.forgotten == p.forgotten + (if step.Crash? || step.EvictFails? then p.unreported else [])
  {
    hide Enqueued, Accepted, Rejected, Bodies, Flawed, Parsed, Without, AfterEviction, Victims, Readable;
  }

  lemma {:induction false} ReceiptsBalance(p: Pipeline, steps: seq<Step>, flaws: Row -> set<Field>)
    requires Allowed(p, steps, flaws) && p.evicted == p.reported + |p.unreported| + |p.forgotten|
    ensures var p' := Run(p, steps, flaws);
            && p'.evicted == p'.reported + |p'.unreported| + |p'.forgotten|
            && p.forgotten <= p'.forgotten
            && (p'.forgotten == p.forgotten <==> ReceiptsInTime(p, steps, flaws))
    decreases |steps|
  {
    hide Apply, Enabled;
    if steps != [] {
      ReceiptStep(p, steps[0], flaws);
      ReceiptsBalance(Apply(p, steps[0], flaws), steps[1..], flaws);
    }
  }

  /** A receipt reaches the queue, and with it every row evicted since the last one is named. */
  lemma ReceiptNames(boot: BootId, steps: seq<Step>, flaws: Row -> set<Field>, row: Row)
    requires Allowed(Fresh(boot), steps, flaws) && Enabled(Run(Fresh(boot), steps, flaws), Receipt(row))
    ensures var p := Run(Fresh(boot), steps, flaws);
            var p' := Apply(p, Receipt(row), flaws);
            && p'.queue == p.queue + [row] && p'.named == p.named + p.unreported
            && p'.reported == p.reported + |p.unreported| && p'.unreported == []
  {
    hide Run, Allowed, IdsInv, Enqueued;
    RunKeepsInv(boot, steps, flaws);
    EnqueueKeepsIds(Run(Fresh(boot), steps, flaws), row);
  }

  /**
    The rows evicted over a run equal what its receipts report exactly when no receipt is
    still to come and none was cut off: a process that dies between an eviction and its
    receipt loses those rows without a word.
   */
  lemma EvictionsReportedExactly(boot: BootId, steps: seq<Step>, flaws: Row -> set<Field>)
    requires Allowed(Fresh(boot), steps, flaws)
    ensures var p := Run(Fresh(boot), steps, flaws);
            p.evicted == p.reported <==> p.unreported == [] && ReceiptsInTime(Fresh(boot), steps, flaws)
  {
    ReceiptsBalance(Fresh(boot), steps, flaws);
  }

  /** And then what was evicted is among what was named: no occurrence went unmentioned. */
  lemma NothingForgotten(boot: BootId, steps: seq<Step>, flaws: Row -> set<Field>, k: nat)
    requires Allowed(Fresh(boot), steps, flaws) && ReceiptsInTime(Fresh(boot), steps, flaws)
    requires k < |Run(Fresh(boot), steps, flaws).appended| && Run(Fresh(boot), steps, flaws).appended[k].event.Some?
    ensures var p := Run(Fresh(boot), steps, flaws);
            || k >= p.start || InSegment(p, k) || Unread(p, k)
            || exists id :: IsFor(p, id, k)
                 && (HasId(p.queue, id) || HasId(p.stored, id) || HasId(p.named, id) || HasId(p.unreported, id))
  {
    hide Run, Allowed, InSegment, Unread, IsFor;
    var p := Run(Fresh(boot), steps, flaws);
    NeverLosesSilently(boot, steps, flaws);
    ReceiptsBalance(Fresh(boot), steps, flaws);
    assert Accounted(p, k);
    assert forall id :: !HasId(p.forgotten, id);
  }

  // ---- Runs, end to end ---------------------------------------------------------------------------------------

  lemma {:induction false} RunsJoin(p: Pipeline, first: seq<Step>, second: seq<Step>, flaws: Row -> set<Field>)
    requires Allowed(p, first, flaws) && Allowed(Run(p, first, flaws), second, flaws)
    ensures Allowed(p, first + second, flaws)
    ensures Run(p, first + second, flaws) == Run(Run(p, first, flaws), second, flaws)
    decreases |first|
  {
    hide Apply, Enabled;
    if first == [] {
      assert first + second == second;
    } else {
      assert (first + second)[0] == first[0] && (first + second)[1..] == first[1..] + second;
      RunsJoin(Apply(p, first[0], flaws), first[1..], second, flaws);
    }
  }

  lemma OneStep(p: Pipeline, step: Step, flaws: Row -> set<Field>)
    requires Enabled(p, step)
    ensures Allowed(p, [step], flaws) && Run(p, [step], flaws) == Apply(p, step, flaws)
  {
    hide Apply, Enabled;
    assert [step][1..] == [];
  }

  lemma TwoSteps(p: Pipeline, first: Step, second: Step, flaws: Row -> set<Field>)
    requires Enabled(p, first) && Enabled(Apply(p, first, flaws), second)
    ensures Allowed(p, [first, second], flaws)
    ensures Run(p, [first, second], flaws) == Apply(Apply(p, first, flaws), second, flaws)
  {
    hide Apply, Enabled;
    OneStep(p, first, flaws);
    OneStep(Apply(p, first, flaws), second, flaws);
    RunsJoin(p, [first], [second], flaws);
    assert [first] + [second] == [first, second];
  }

  /** What a drain does with the segments it found. */
  function DrainSteps(segments: seq<Segment>, at: Moment): seq<Step> {
    if segments == [] then []
    else
      var last := segments[|segments| - 1];
      DrainSteps(segments[..|segments| - 1], at) + [Ingest(last, at), Unlink(last)]
  }

  predicate DistinctNames(segments: seq<Segment>) {
    forall i, j :: 0 <= i < j < |segments| ==> segments[i].name != segments[j].name
  }

  /** A drain is a run of these steps, so whatever holds of every run holds through every drain. */
  lemma {:induction false} DrainIsARun(p: Pipeline, segments: seq<Segment>, at: Moment, flaws: Row -> set<Field>)
    requires DistinctNames(segments) && forall s :: s in segments ==> s in p.segments && s.name in p.origin
    ensures Allowed(p, DrainSteps(segments, at), flaws)
    ensures var p' := Run(p, DrainSteps(segments, at), flaws);
            && p'.queue == Ingested(p.queue, segments, p.boot, at)
            && p'.segments == RemovedAll(p.segments, segments)
            && p'.live == p.live && p'.stored == p.stored && p'.named == p.named && p'.boot == p.boot
            && p'.origin == p.origin
  {
    hide Enqueued, Parsed, Readable, Removed;
    if segments != [] {
      var front, last := segments[..|segments| - 1], segments[|segments| - 1];
      assert segments == front + [last];
      DrainIsARun(p, front, at, flaws);
      var mid := Run(p, DrainSteps(front, at), flaws);
      StillThere(p.segments, front, last);
      TwoSteps(mid, Ingest(last, at), Unlink(last), flaws);
      RunsJoin(p, DrainSteps(front, at), [Ingest(last, at), Unlink(last)], flaws);
    }
  }

  lemma {:induction false} StillThere(segments: seq<Segment>, done: seq<Segment>, s: Segment)
    requires s in segments && forall d :: d in done ==> d.name != s.name
    ensures s in RemovedAll(segments, done)
  {
    if done != [] {
      var front, last := done[..|done| - 1], done[|done| - 1];
      assert done == front + [last];
      StillThere(segments, front, s);
      RemovedMembers(RemovedAll(segments, front), last.name);
    }
  }

  /** An exchange that is answered takes exactly the batch off the queue, poisoned events and all. */
  lemma ExchangeIsARun(p: Pipeline, size: nat, flaws: Row -> set<Field>)
    requires IdsInv(p) && p.flight.None? && size <= BATCH_SIZE
    ensures var steps := [Send(size), Serve] + [AckAccepted, AckRejected];
            && Allowed(p, steps, flaws)
            && Run(p, steps, flaws).queue == p.queue[Min(size, |p.queue|)..]
            && Run(p, steps, flaws).flight.None?
  {
    hide Without, Enqueued, Accepted, Rejected, Bodies, Flawed, Oldest, Named, RejectedIds, IdsOf, DistinctIds,
      AllProper;
    var sent := Apply(p, Send(size), flaws);
    var served := Apply(sent, Serve, flaws);
    TwoSteps(p, Send(size), Serve, flaws);
    TwoSteps(served, AckAccepted, AckRejected, flaws);
    RunsJoin(p, [Send(size), Serve], [AckAccepted, AckRejected], flaws);
    ExchangeRemovesExactlyTheBatch(p.queue, size, flaws);
  }

  function Appends(lines: seq<Line>): seq<Step> {
    if lines == [] then [] else Appends(lines[..|lines| - 1]) + [Append(lines[|lines| - 1])]
  }

  lemma AppendOnce(p: Pipeline, line: Line, flaws: Row -> set<Field>)
    ensures Allowed(p, [Append(line)], flaws)
    ensures Run(p, [Append(line)], flaws) == p.(live := p.live + [line], appended := p.appended + [line])
  {
    OneStep(p, Append(line), flaws);
  }

  lemma {:induction false} AppendsRun(p: Pipeline, lines: seq<Line>, flaws: Row -> set<Field>)
    ensures Allowed(p, Appends(lines), flaws)
    ensures Run(p, Appends(lines), flaws) == p.(live := p.live + lines, appended := p.appended + lines)
  {
    if lines == [] {
      assert p.live + [] == p.live && p.appended + [] == p.appended;
    } else {
      hide Run, Allowed;
      var front, last := lines[..|lines| - 1], lines[|lines| - 1];
      AppendsRun(p, front, flaws);
      AppendOnce(Run(p, Appends(front), flaws), last, flaws);
      RunsJoin(p, Appends(front), [Append(last)], flaws);
      assert lines == front + [last];
      assert p.live + front + [last] == p.live + lines && p.appended + front + [last] == p.appended + lines;
    }
  }

  lemma RemovedAlone(segment: Segment)
    ensures Removed([segment], segment.name) == []
  {
    assert [segment][..0] == [];
  }

  /** Lines appended and rotated into one segment. */
  function Spooled(p: Pipeline, lines: seq<Line>, stamp: SegmentName): Pipeline {
    p.(live := [], segments := [Segment(stamp, lines)], appended := p.appended + lines,
       start := |p.appended + lines|, origin := p.origin[stamp := p.start])
  }

  lemma SpooledRun(p: Pipeline, lines: seq<Line>, stamp: SegmentName, flaws: Row -> set<Field>)
    requires lines != [] && p.live == [] && p.segments == []
    ensures Allowed(p, Appends(lines) + [Rotate(stamp)], flaws)
    ensures Run(p, Appends(lines) + [Rotate(stamp)], flaws) == Spooled(p, lines, stamp)
  {
    hide Run, Allowed, Apply, Enabled;
    AppendsRun(p, lines, flaws);
    assert [] + lines == lines;
    var appended := Run(p, Appends(lines), flaws);
    RotateAlone(appended, stamp, flaws);
    OneStep(appended, Rotate(stamp), flaws);
    RunsJoin(p, Appends(lines), [Rotate(stamp)], flaws);
  }

  lemma RotateAlone(p: Pipeline, stamp: SegmentName, flaws: Row -> set<Field>)
    requires p.live != [] && p.segments == []
    ensures Enabled(p, Rotate(stamp))
    ensures Apply(p, Rotate(stamp), flaws)
            == p.(live := [], segments := [Segment(stamp, p.live)], start := |p.appended|,
                  origin := p.origin[stamp := p.start])
  {
    assert !Exists([], stamp);
    assert [] + [Segment(stamp, p.live)] == [Segment(stamp, p.live)];
  }

  function SpoolTrip(lines: seq<Line>, stamp: SegmentName, at: Moment): seq<Step> {
    (Appends(lines) + [Rotate(stamp)]) + [Ingest(Segment(stamp, lines), at), Unlink(Segment(stamp, lines))]
  }

  predicate HasLine(rows: seq<Row>, line: Line) {
    exists row :: row in rows && row.line == line
  }

  /**
    Lines spooled, rotated, ingested and unlinked all reach the queue exactly when all of
    them are text or none of them parses: one line that is not text loses its whole segment.
   */
  lemma SpoolTripKeepsExactly(
      boot: BootId, lines: seq<Line>, stamp: SegmentName, at: Moment, flaws: Row -> set<Field>)
    requires lines != []
    ensures Allowed(Fresh(boot), SpoolTrip(lines, stamp, at), flaws)
    ensures var p := Run(Fresh(boot), SpoolTrip(lines, stamp, at), flaws);
            && p.live == [] && p.segments == [] && p.stored == [] && p.named == []
            && ((forall line :: line in lines && line.event.Some? ==> HasLine(p.queue, line))
                <==> Readable(lines) || forall line :: line in lines ==> line.event.None?)
  {
    hide Enqueued, Parsed, ParsedText, Readable, HasLine;
    var segment := Segment(stamp, lines);
    SpooledRun(Fresh(boot), lines, stamp, flaws);
    TwoSteps(Spooled(Fresh(boot), lines, stamp), Ingest(segment, at), Unlink(segment), flaws);
    RunsJoin(Fresh(boot), Appends(lines) + [Rotate(stamp)], [Ingest(segment, at), Unlink(segment)], flaws);
    RemovedAlone(segment);
    QueuedExactly(boot, segment, at);
  }

  lemma QueuedExactly(boot: BootId, segment: Segment, at: Moment)
    ensures var queue := Enqueued([], Parsed(segment.lines, boot, segment.name, at));
            (forall line :: line in segment.lines && line.event.Some? ==> HasLine(queue, line))
            <==> Readable(segment.lines) || forall line :: line in segment.lines ==> line.event.None?
  {
    hide Enqueued, ParsedText;
    var rows := Parsed(segment.lines, boot, segment.name, at);
    ParsedCoversExactly(segment.lines, boot, segment.name, at);
    ParsedDistinct(segment.lines, boot, segment.name, at);
    AllNew([], rows);
    assert [] + rows == rows;
    assert forall line :: HasLine(rows, line) <==> exists row :: row in rows && row.line == line;
  }

  /** Rows with ids of their own, none of them there yet, are all added. */
  lemma {:induction false} AllNew(rows: seq<Row>, added: seq<Row>)
    requires DistinctIds(added) && forall row :: row in added ==> !HasId(rows, row.eventId)
    ensures Enqueued(rows, added) == rows + added
  {
    if added != [] {
      var front, last := added[..|added| - 1], added[|added| - 1];
      assert added == front + [last];
      AllNew(rows, front);
      InEither(rows, front, last.eventId);
      assert last in added;
      assert !HasId(front, last.eventId);
    }
  }

  // ---- Once on the server --------------------------------------------------------------------------------------

  /** Two rows for the same line of the same segment, read by the same process. */
  predicate SameSource(a: Row, b: Row) {
    && a.eventId.Derived? && b.eventId.Derived?
    && a.eventId.boot == b.eventId.boot && a.eventId.segment == b.eventId.segment
    && a.eventId.index == b.eventId.index && a.line == b.line
  }

  /** However often one process reads it, a line with a readable timestamp is stored once. */
  lemma StoredOnce(boot: BootId, steps: seq<Step>, flaws: Row -> set<Field>, i: nat, j: nat)
    requires Allowed(Fresh(boot), steps, flaws)
    requires i < j < |Run(Fresh(boot), steps, flaws).stored|
    ensures var stored := Run(Fresh(boot), steps, flaws).stored;
            SameSource(stored[i], stored[j]) ==> stored[i].line.ts.None?
  {
    hide Run, Allowed;
    RunKeepsInv(boot, steps, flaws);
    var p := Run(Fresh(boot), steps, flaws);
    assert Proper(p.minted, p.stored[i]) && Proper(p.minted, p.stored[j]);
  }

  /**
    A process that dies between enqueue and unlink, and the next one reading the same
    segment. Nothing is queued again exactly when it is the same process id and every line
    has its timestamp, or nothing parses; under another id every row is queued a second time.
   */
  lemma CrashQueuesTwiceExactly(
      lines: seq<Line>, boot: BootId, next: BootId, stamp: SegmentName, at: Moment, again: Moment,
      flaws: Row -> set<Field>)
    requires lines != [] && Readable(lines) && at.parsedAt != again.parsedAt
    ensures var segment := Segment(stamp, lines);
            var crashed := (Appends(lines) + [Rotate(stamp)]) + [Ingest(segment, at), Crash(next)];
            var steps := crashed + [Ingest(segment, again), Unlink(segment)];
            var first, second := Parsed(lines, boot, stamp, at), Parsed(lines, next, stamp, again);
            && Allowed(Fresh(boot), steps, flaws)
            && var p := Run(Fresh(boot), steps, flaws);
               && p.appended == lines && p.segments == []
               && first <= p.queue
               && (p.queue == first
                   <==> (boot == next && AllStamped(lines)) || forall line :: line in lines ==> line.event.None?)
               && (boot != next ==> p.queue == first + second)
  {
    hide Enqueued, Parsed, ParsedText, Readable, Removed, AllStamped;
    var segment := Segment(stamp, lines);
    var first, second := Parsed(lines, boot, stamp, at), Parsed(lines, next, stamp, again);
    SpooledRun(Fresh(boot), lines, stamp, flaws);
    var spooled := Spooled(Fresh(boot), lines, stamp);
    TwoSteps(spooled, Ingest(segment, at), Crash(next), flaws);
    var crashed := Apply(Apply(spooled, Ingest(segment, at), flaws), Crash(next), flaws);
    RunsJoin(Fresh(boot), Appends(lines) + [Rotate(stamp)], [Ingest(segment, at), Crash(next)], flaws);
    TwoSteps(crashed, Ingest(segment, again), Unlink(segment), flaws);
    RunsJoin(Fresh(boot), (Appends(lines) + [Rotate(stamp)]) + [Ingest(segment, at), Crash(next)],
             [Ingest(segment, again), Unlink(segment)], flaws);
    RemovedAlone(segment);
    QueuedOnce(lines, boot, stamp, at);
    QueuedAgain(lines, boot, next, stamp, at, again);
  }

  lemma QueuedOnce(lines: seq<Line>, boot: BootId, stamp: SegmentName, at: Moment)
    ensures Enqueued([], Parsed(lines, boot, stamp, at)) == Parsed(lines, boot, stamp, at)
    ensures DistinctIds(Parsed(lines, boot, stamp, at))
  {
    var rows := Parsed(lines, boot, stamp, at);
    ParsedDistinct(lines, boot, stamp, at);
    AllNew([], rows);
    assert [] + rows == rows;
  }

  /** Row by row at the same places, and places in order. */
  predicate Parallel(a: seq<Row>, b: seq<Row>) {
    && |a| == |b|
    && (forall i :: 0 <= i < |a| ==>
          a[i].eventId.Derived? && b[i].eventId.Derived? && a[i].eventId.index == b[i].eventId.index)
    && (forall i, j :: 0 <= i < j < |a| ==> a[i].eventId.index < a[j].eventId.index)
  }

  lemma {:induction false} ReadingsParallel(
      lines: seq<Line>, boot: BootId, next: BootId, stamp: SegmentName, at: Moment, again: Moment)
    ensures var a, b := ParsedText(lines, boot, stamp, at), ParsedText(lines, next, stamp, again);
            Parallel(a, b) && forall i :: 0 <= i < |a| ==> a[i].eventId.index < |lines|
  {
    if lines != [] {
      ReadingsParallel(lines[..|lines| - 1], boot, next, stamp, at, again);
    }
  }

  lemma ParallelNames(a: seq<Row>, b: seq<Row>)
    requires Parallel(a, b) && forall i :: 0 <= i < |b| ==> HasId(a, b[i].eventId)
    ensures SameNames(a, b)
  {
    hide HasId, Parallel;
    assert |a| == |b| by { ParallelLength(a, b); }
    forall i | 0 <= i < |a| ensures a[i].eventId == b[i].eventId {
      SameAt(a, b, i);
    }
  }

  lemma ParallelLength(a: seq<Row>, b: seq<Row>)
    requires Parallel(a, b)
    ensures |a| == |b|
  {
  }

  lemma SameAt(a: seq<Row>, b: seq<Row>, i: nat)
    requires Parallel(a, b) && i < |b| && HasId(a, b[i].eventId)
    ensures i < |a| && a[i].eventId == b[i].eventId
  {
    var row :| row in a && row.eventId == b[i].eventId;
    var j :| 0 <= j < |a| && a[j] == row;
    assert a[j].eventId.index == a[i].eventId.index;
    assert !(j < i) && !(i < j);
  }

  /** If nothing of a second reading is new, its ids were those of the first. */
  lemma NamesTellApart(lines: seq<Line>, boot: BootId, next: BootId, stamp: SegmentName, at: Moment, again: Moment)
    requires Readable(lines)
    ensures var first, second := Parsed(lines, boot, stamp, at), Parsed(lines, next, stamp, again);
            Enqueued(first, second) == first ==> SameNames(first, second)
  {
    hide Enqueued, ParsedText, Readable, Parallel, SameNames, HasId;
    var first, second := Parsed(lines, boot, stamp, at), Parsed(lines, next, stamp, again);
    ReadingsParallel(lines, boot, next, stamp, at, again);
    EnqueuedHasAll(first, second);
    if Enqueued(first, second) == first {
      assert forall i :: 0 <= i < |second| ==> second[i] in second;
      ParallelNames(first, second);
    }
  }

  lemma QueuedAgain(lines: seq<Line>, boot: BootId, next: BootId, stamp: SegmentName, at: Moment, again: Moment)
    requires Readable(lines) && at.parsedAt != again.parsedAt
    ensures var first, second := Parsed(lines, boot, stamp, at), Parsed(lines, next, stamp, again);
            && first <= Enqueued(first, second)
            && (Enqueued(first, second) == first
                <==> (boot == next && AllStamped(lines)) || forall line :: line in lines ==> line.event.None?)
            && (boot != next ==> Enqueued(first, second) == first + second)
  {
    hide Enqueued, ParsedText, AllStamped;
    var first, second := Parsed(lines, boot, stamp, at), Parsed(lines, next, stamp, again);
    ReparseNamesTheSame(lines, boot, next, stamp, at, again);
    EnqueuedHasAll(first, second);
    QueuedOnce(lines, next, stamp, again);
    ParsedIds(lines, boot, stamp, at);
    ParsedIds(lines, next, stamp, again);
    NamesTellApart(lines, boot, next, stamp, at, again);
    if SameNames(first, second) {
      forall row | row in second ensures HasId(first, row.eventId) {
        var i :| 0 <= i < |second| && second[i] == row;
        assert first[i] in first && first[i].eventId == row.eventId;
      }
      NothingNew(first, second);
    }
    if boot != next {
      AllNew(first, second);
    }
  }

  lemma {:induction false} NothingNew(rows: seq<Row>, added: seq<Row>)
    requires forall row :: row in added ==> HasId(rows, row.eventId)
    ensures Enqueued(rows, added) == rows
  {
    if added != [] {
      var front, last := added[..|added| - 1], added[|added| - 1];
      assert added == front + [last];
      NothingNew(rows, front);
    }
  }

  // ---- Occurrences and ids ----------------------------------------------------------------------------------------

  /** No process has read two different segments under one name. */
  predicate StampsUnique(p: Pipeline) {
    forall a, b :: a in p.readings && b in p.readings && a.boot == b.boot && a.name == b.name ==> a.first == b.first
  }

  /** Then no two occurrences share an id, so each that has passed the spool has a row to itself. */
  lemma OccurrencesHaveTheirOwnIds(p: Pipeline, a: EventId, j: nat, b: EventId, k: nat)
    requires StampsUnique(p) && IsFor(p, a, j) && IsFor(p, b, k) && j != k
    ensures a != b
  {
  }

  /** The same text at the same place of two segments, with a timestamp of its own. */
  predicate SameAtPlace(a: seq<Line>, b: seq<Line>, j: nat) {
    j < |a| && j < |b| && a[j] == b[j] && b[j].event.Some? && b[j].ts.Some?
  }

  /** A row of one parse has the place of its line. */
  lemma {:induction false} RowHasPlace(lines: seq<Line>, boot: BootId, name: SegmentName, at: Moment, row: Row)
    requires row in ParsedText(lines, boot, name, at)
    ensures row.eventId.Derived? && row.eventId.index < |lines|
    ensures var i := row.eventId.index;
            lines[i].event.Some? && row == RowOf(lines[i], boot, name, i, at)
  {
    var front, last := lines[..|lines| - 1], lines[|lines| - 1];
    assert lines == front + [last];
    if row in ParsedText(front, boot, name, at) {
      RowHasPlace(front, boot, name, at, row);
    }
  }

  /**
    A name used again by the process that read it before: a line of the second segment is taken
    for one of the first exactly when the first had the same line at the same place and it
    carries a readable timestamp.
   */
  lemma ReusedNameMergesExactly(
      a: seq<Line>, b: seq<Line>, boot: BootId, stamp: SegmentName, at: Moment, again: Moment, j: nat)
    requires at.parsedAt != again.parsedAt && j < |b| && b[j].event.Some?
    ensures HasId(ParsedText(a, boot, stamp, at), RowOf(b[j], boot, stamp, j, again).eventId) <==> SameAtPlace(a, b, j)
  {
    var first, row := ParsedText(a, boot, stamp, at), RowOf(b[j], boot, stamp, j, again);
    if HasId(first, row.eventId) {
      var r :| r in first && r.eventId == row.eventId;
      RowHasPlace(a, boot, stamp, at, r);
    }
    if SameAtPlace(a, b, j) {
      ParsedAt(a, boot, stamp, at, j);
    }
  }

  /** The rows whose ids are not queued yet. */
  function Unseen(rows: seq<Row>, added: seq<Row>): seq<Row> {
    if added == [] then []
    else
      var front, last := Unseen(rows, added[..|added| - 1]), added[|added| - 1];
      if HasId(rows, last.eventId) then front else front + [last]
  }

  lemma {:induction false} UnseenAreAdded(rows: seq<Row>, added: seq<Row>)
    requires DistinctIds(added)
    ensures Enqueued(rows, added) == rows + Unseen(rows, added)
    ensures forall row :: row in Unseen(rows, added) <==> row in added && !HasId(rows, row.eventId)
    ensures |Unseen(rows, added)| <= |added|
    ensures |Unseen(rows, added)| == |added| <==> forall row :: row in added ==> !HasId(rows, row.eventId)
  {
    if added == [] {
      assert rows + [] == rows;
    } else {
      var front, last := added[..|added| - 1], added[|added| - 1];
      assert added == front + [last];
      UnseenAreAdded(rows, front);
      InEither(rows, Unseen(rows, front), last.eventId);
      LastIsNew(front, last);
      assert rows + Unseen(rows, front) + [last] == rows + (Unseen(rows, front) + [last]);
    }
  }

  lemma LastIsNew(front: seq<Row>, last: Row)
    requires DistinctIds(front + [last])
    ensures forall row :: row in front ==> row.eventId != last.eventId
  {
    forall row | row in front ensures row.eventId != last.eventId {
      var i :| 0 <= i < |front| && front[i] == row;
      assert (front + [last])[i] == row && (front + [last])[|front|] == last;
    }
  }

  lemma TripRun(p: Pipeline, lines: seq<Line>, stamp: SegmentName, at: Moment, flaws: Row -> set<Field>)
    requires p.live == [] && p.segments == [] && p.ingested == {} && lines != []
    ensures Allowed(p, SpoolTrip(lines, stamp, at), flaws)
    ensures var p' := Run(p, SpoolTrip(lines, stamp, at), flaws);
            && p'.queue == Enqueued(p.queue, Parsed(lines, p.boot, stamp, at)) && p'.boot == p.boot
            && p'.live == [] && p'.segments == [] && p'.ingested == {} && p'.named == p.named
            && p'.appended == p.appended + lines
  {
    hide Enqueued, Parsed, Removed, Readable, Run, Allowed;
    var segment := Segment(stamp, lines);
    SpooledRun(p, lines, stamp, flaws);
    assert segment in Spooled(p, lines, stamp).segments;
    TwoSteps(Spooled(p, lines, stamp), Ingest(segment, at), Unlink(segment), flaws);
    RemovedAlone(segment);
    RunsJoin(p, Appends(lines) + [Rotate(stamp)], [Ingest(segment, at), Unlink(segment)], flaws);
  }

  /**
    Two segments of text read by one process under one name: the second adds exactly its
    lines that are not taken for one of the first, so the queue holds an event for each of all
    their parseable lines if and only if there is no such pair.
   */
  lemma ReusedNameRunExactly(
      a: seq<Line>, b: seq<Line>, boot: BootId, stamp: SegmentName, at: Moment, again: Moment, flaws: Row -> set<Field>)
    requires a != [] && b != [] && Readable(a) && Readable(b) && at.parsedAt != again.parsedAt
    ensures var steps := SpoolTrip(a, stamp, at) + SpoolTrip(b, stamp, again);
            var first, second := ParsedText(a, boot, stamp, at), ParsedText(b, boot, stamp, again);
            && Allowed(Fresh(boot), steps, flaws)
            && var p := Run(Fresh(boot), steps, flaws);
               && p.appended == a + b && p.live == [] && p.segments == [] && p.named == []
               && p.queue == first + Unseen(first, second)
               && (|p.queue| == |first| + |second| <==> forall j :: 0 <= j < |b| ==> !SameAtPlace(a, b, j))
  {
    hide Enqueued, ParsedText, Apply, Enabled, Run, Allowed, HasId, SpoolTrip;
    TripRun(Fresh(boot), a, stamp, at, flaws);
    var mid := Run(Fresh(boot), SpoolTrip(a, stamp, at), flaws);
    TripRun(mid, b, stamp, again, flaws);
    RunsJoin(Fresh(boot), SpoolTrip(a, stamp, at), SpoolTrip(b, stamp, again), flaws);
    QueuedOnce(a, boot, stamp, at);
    QueuedOnce(b, boot, stamp, again);
    UnseenAreAdded(ParsedText(a, boot, stamp, at), ParsedText(b, boot, stamp, again));
    NoneSeenExactly(a, b, boot, stamp, at, again);
    assert [] + a + b == a + b;
  }

  lemma NoneSeenExactly(
      a: seq<Line>, b: seq<Line>, boot: BootId, stamp: SegmentName, at: Moment, again: Moment)
    requires at.parsedAt != again.parsedAt
    ensures (forall row :: row in ParsedText(b, boot, stamp, again) ==>
               !HasId(ParsedText(a, boot, stamp, at), row.eventId))
            <==> forall j :: 0 <= j < |b| ==> !SameAtPlace(a, b, j)
  {
    hide HasId, ParsedText;
    var first, second := ParsedText(a, boot, stamp, at), ParsedText(b, boot, stamp, again);
    forall row | row in second ensures row.eventId.Derived? && row.eventId.index < |b| {
      RowHasPlace(b, boot, stamp, again, row);
    }
    forall row | row in second ensures HasId(first, row.eventId) <==> SameAtPlace(a, b, row.eventId.index) {
      RowHasPlace(b, boot, stamp, again, row);
      ReusedNameMergesExactly(a, b, boot, stamp, at, again, row.eventId.index);
    }
    forall j | 0 <= j < |b| && SameAtPlace(a, b, j) ensures exists row :: row in second && HasId(first, row.eventId) {
      ParsedAt(b, boot, stamp, again, j);
      ReusedNameMergesExactly(a, b, boot, stamp, at, again, j);
      var row := RowOf(b[j], boot, stamp, j, again);
      assert row in second && HasId(first, row.eventId);
    }
  }

  // ---- When every line is text ----------------------------------------------------------------------------------

  predicate TextInv(p: Pipeline) {
    Readable(p.live) && p.unread == {} && forall s :: s in p.segments ==> Readable(s.lines)
  }

  predicate AppendsText(steps: seq<Step>) {
    forall step :: step in steps && step.Append? ==> step.line.utf8
  }

  lemma TextKept(p: Pipeline, step: Step, flaws: Row -> set<Field>)
    requires TextInv(p) && Enabled(p, step) && (step.Append? ==> step.line.utf8)
    ensures TextInv(Apply(p, step, flaws))
  {
    hide Enqueued, Accepted, Rejected, Bodies, Flawed, Parsed, Without, AfterEviction, Victims, Exists;
    if step.Unlink? {
      RemovedMembers(p.segments, step.segment.name);
    }
  }

  lemma {:induction false} TextHolds(p: Pipeline, steps: seq<Step>, flaws: Row -> set<Field>)
    requires TextInv(p) && Allowed(p, steps, flaws) && AppendsText(steps)
    ensures TextInv(Run(p, steps, flaws))
    decreases |steps|
  {
    hide TextInv, Apply, Enabled;
    if steps != [] {
      assert steps[0] in steps;
      TextKept(p, steps[0], flaws);
      TextHolds(Apply(p, steps[0], flaws), steps[1..], flaws);
    }
  }

  /** With nothing but text appended, no occurrence goes unread. */
  lemma NeverLosesText(boot: BootId, steps: seq<Step>, flaws: Row -> set<Field>, k: nat)
    requires Allowed(Fresh(boot), steps, flaws) && AppendsText(steps)
    requires k < |Run(Fresh(boot), steps, flaws).appended| && Run(Fresh(boot), steps, flaws).appended[k].event.Some?
    ensures var p := Run(Fresh(boot), steps, flaws);
            k >= p.start || InSegment(p, k) || Passed(p, k)
  {
    hide Run, Allowed, InSegment, Passed;
    NeverLosesSilently(boot, steps, flaws);
    TextHolds(Fresh(boot), steps, flaws);
    assert Accounted(Run(Fresh(boot), steps, flaws), k);
  }

  /**
    Together: with nothing but text appended and every receipt in time, each occurrence of a
    line that parses is in the live file or a segment, or has an id of its own that is queued,
    on the server, or named as refused, dropped or evicted, or is in an eviction whose receipt
    is next.
   */
  lemma TextIsNeverForgotten(boot: BootId, steps: seq<Step>, flaws: Row -> set<Field>, k: nat)
    requires Allowed(Fresh(boot), steps, flaws) && AppendsText(steps) && ReceiptsInTime(Fresh(boot), steps, flaws)
    requires k < |Run(Fresh(boot), steps, flaws).appended| && Run(Fresh(boot), steps, flaws).appended[k].event.Some?
    ensures var p := Run(Fresh(boot), steps, flaws);
            || k >= p.start || InSegment(p, k)
            || exists id :: IsFor(p, id, k)
                 && (HasId(p.queue, id) || HasId(p.stored, id) || HasId(p.named, id) || HasId(p.unreported, id))
  {
    hide Run, Allowed, InSegment, IsFor;
    NothingForgotten(boot, steps, flaws, k);
    TextHolds(Fresh(boot), steps, flaws);
  }
}
