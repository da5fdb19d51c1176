/** The delivery loop: up to four batches a tick, each removed only when the server has answered for it. */
module SyncDaemon {
  import opened Basics
  import opened Events
  import opened Queue
  import opened EventsRoute

  const BATCH_SIZE := 2000
  const MAX_BATCHES_PER_TICK := 4

  datatype ProblemAction = DropBatch | HalveBatch | OtherAction

  /** What becomes of one request: an answer, silence before or after the server acted, or a refusal. */
  datatype Link = Answered | RequestLost | ReplyLost | Refused(action: ProblemAction)

  /** A row that left the queue has somewhere it went. */
  predicate Settled(row: Row, stored: seq<Row>, refused: seq<Row>, dropped: seq<Row>) {
    HasId(stored, row.eventId) || row in refused || row in dropped
  }

  predicate AllSettled(rows: seq<Row>, stored: seq<Row>, refused: seq<Row>, dropped: seq<Row>) {
    forall row :: row in rows ==> Settled(row, stored, refused, dropped)
  }

  predicate AllFlawed(rows: seq<Row>, flaws: Row -> set<Field>) {
    forall row :: row in rows ==> flaws(row) != {}
  }

  function Flawed(rows: seq<Row>, flaws: Row -> set<Field>): seq<Row> {
    if rows == [] then []
    else
      var front, last := Flawed(rows[..|rows| - 1], flaws), rows[|rows| - 1];
      if flaws(last) == {} then front else front + [last]
  }

  lemma {:induction false} FlawedMembers(rows: seq<Row>, flaws: Row -> set<Field>)
    ensures forall row :: row in Flawed(rows, flaws) <==> row in rows && flaws(row) != {}
  {
    if rows != [] {
      FlawedMembers(rows[..|rows| - 1], flaws);
      assert rows == rows[..|rows| - 1] + [rows[|rows| - 1]];
    }
  }

  lemma {:induction false} EnqueuedHasAll(rows: seq<Row>, added: seq<Row>)
    ensures rows <= Enqueued(rows, added)
    ensures forall row :: row in added ==> HasId(Enqueued(rows, added), row.eventId)
    ensures DistinctIds(rows) ==> DistinctIds(Enqueued(rows, added))
  {
    if added != [] {
      var front, last := added[..|added| - 1], added[|added| - 1];
      EnqueuedHasAll(rows, front);
      assert added == front + [last];
      var before, after := Enqueued(rows, front), Enqueued(rows, added);
      if HasId(before, last.eventId) {
        assert after == before;
      } else {
        assert after == before + [last];
        assert last in after;
        forall row | row in front ensures HasId(after, row.eventId) {
          var r :| r in before && r.eventId == row.eventId;
          assert r in after;
        }
      }
    }
  }

  /** After an answered exchange the batch is settled: stored if clean, named if not. */
  lemma BatchSettled(stored: seq<Row>, rows: seq<Row>, flaws: Row -> set<Field>, refused: seq<Row>, dropped: seq<Row>)
    ensures AllSettled(rows, Enqueued(stored, Accepted(Bodies(rows, flaws))), refused + Flawed(rows, flaws), dropped)
  {
    ReplyPartitionsBatch(rows, flaws);
    EnqueuedHasAll(stored, Accepted(Bodies(rows, flaws)));
    FlawedMembers(rows, flaws);
  }

  lemma StillSettled(
      rows: seq<Row>, stored: seq<Row>, refused: seq<Row>, dropped: seq<Row>,
      stored': seq<Row>, refused': seq<Row>, dropped': seq<Row>)
    requires AllSettled(rows, stored, refused, dropped)
    requires stored <= stored' && refused <= refused' && dropped <= dropped'
    ensures AllSettled(rows, stored', refused', dropped')
  {
    forall row | row in rows ensures Settled(row, stored', refused', dropped') {
      assert Settled(row, stored, refused, dropped);
      if HasId(stored, row.eventId) {
        var r :| r in stored && r.eventId == row.eventId;
        assert r in stored';
      }
    }
  }

  method IdsIn(rejected: seq<Rejection>) returns (ids: seq<EventId>)
    ensures Named(ids) == RejectedIds(rejected)
  {
    ids := [];
    for i := 0 to |rejected|
      invariant Named(ids) == RejectedIds(rejected[..i])
    {
      assert rejected[..i + 1] == rejected[..i] + [rejected[i]];
      if rejected[i].id.Some? {
        ids := ids + [rejected[i].id.value];
        assert Named(ids) == RejectedIds(rejected[..i]) + {rejected[i].id.value};
      }
    }
    assert rejected[..|rejected|] == rejected;
  }

  /** One answered exchange, as the queue sees it: both acknowledgements. */
  method Exchange(queue: Store, intake: Intake, rows: seq<Row>, flaws: Row -> set<Field>) returns (size: nat)
    requires queue.Valid() && DistinctIds(intake.stored)
    requires |rows| <= MAX_BATCH_EVENTS && rows == Oldest(queue.rows, |rows|)
    modifies queue, intake
    ensures queue.Valid() && DistinctIds(intake.stored)
    ensures queue.rows == old(queue.rows)[|rows|..]
    ensures intake.stored == Enqueued(old(intake.stored), Accepted(Bodies(rows, flaws)))
    ensures size == |rows|
  {
    BodiesLength(rows, flaws);
    var reply := intake.HandleEvents(Bodies(rows, flaws));
    queue.Acknowledge(reply.accepted);
    // Refusals are final: these leave the queue as well.
    var rejectedIds := IdsIn(reply.rejected);
    queue.Acknowledge(rejectedIds);
    ExchangeRemovesExactlyTheBatch(old(queue.rows), |rows|, flaws);
    ReplyPartitionsBatch(rows, flaws);
    IdsLength(Accepted(Bodies(rows, flaws)));
    size := |reply.accepted| + |reply.rejected|;
  }

  lemma {:induction false} IdsLength(rows: seq<Row>)
    ensures |IdsOf(rows)| == |rows|
  {
    if rows != [] {
      IdsLength(rows[..|rows| - 1]);
    }
  }

  // ---- The loop as a function --------------------------------------------------------------------------------

  /** Both ends of the wire, and what each batch's outcome named. */
  datatype Ends = Ends(queue: seq<Row>, stored: seq<Row>, refused: seq<Row>, dropped: seq<Row>)

  function Served(e: Ends, rows: seq<Row>, flaws: Row -> set<Field>): Ends {
    e.(stored := Enqueued(e.stored, Accepted(Bodies(rows, flaws))))
  }

  function Exchanged(e: Ends, rows: seq<Row>, flaws: Row -> set<Field>): Ends
    requires |rows| <= |e.queue|
  {
    Served(e, rows, flaws).(queue := e.queue[|rows|..], refused := e.refused + Flawed(rows, flaws))
  }

  function Discarded(e: Ends, rows: seq<Row>): Ends
    requires |rows| <= |e.queue|
  {
    e.(queue := e.queue[|rows|..], dropped := e.dropped + rows)
  }

  /** What the loop leaves, link by link. */
  function Flushed(e: Ends, links: seq<Link>, size: nat, flaws: Row -> set<Field>): Ends
    decreases |links|
  {
    var rows := Oldest(e.queue, size);
    if links == [] || rows == [] then e
    else
      match links[0]
      case Answered => Flushed(Exchanged(e, rows, flaws), links[1..], size, flaws)
      case ReplyLost => Served(e, rows, flaws)
      case RequestLost => e
      case Refused(HalveBatch) => Flushed(e, links[1..], Max(1, size / 2), flaws)
      case Refused(DropBatch) => Discarded(e, rows)
      case Refused(OtherAction) => e
  }

  method FlushEvents(queue: Store, intake: Intake, links: seq<Link>, flaws: Row -> set<Field>)
    returns (refused: seq<Row>, dropped: seq<Row>)
    requires queue.Valid() && DistinctIds(intake.stored)
    requires |links| == MAX_BATCHES_PER_TICK
    modifies queue, intake
    ensures queue.Valid() && DistinctIds(intake.stored)
    ensures Ends(queue.rows, intake.stored, refused, dropped)
            == Flushed(Ends(old(queue.rows), old(intake.stored), [], []), links, BATCH_SIZE, flaws)
  {
    hide Enqueued, Accepted, Bodies, Flawed, DistinctIds;
    ghost var start := Ends(queue.rows, intake.stored, [], []);
    refused, dropped := [], [];
    var size: nat := BATCH_SIZE;
    var round := 0;
    assert links[0..] == links;
    while round < MAX_BATCHES_PER_TICK
      invariant queue.Valid() && DistinctIds(intake.stored)
      invariant 0 <= round <= MAX_BATCHES_PER_TICK && 1 <= size <= BATCH_SIZE
      invariant Flushed(Ends(queue.rows, intake.stored, refused, dropped), links[round..], size, flaws)
                == Flushed(start, links, BATCH_SIZE, flaws)
    {
      assert links[round..][0] == links[round] && links[round..][1..] == links[round + 1..];
      var link := links[round];
      round := round + 1;
      var rows := queue.Batch(size);
      if rows == [] { break; }
      match link {
        case Answered =>
          var answered := Exchange(queue, intake, rows, flaws);
          refused := refused + Flawed(rows, flaws);
          if answered < |rows| { break; }
        case ReplyLost =>
          BodiesLength(rows, flaws);
          var reply := intake.HandleEvents(Bodies(rows, flaws));
          break;
        case RequestLost =>
          break;
        case Refused(action) =>
          if action.HalveBatch? {
            size := Max(1, size / 2);
            continue;
          }
          if action.DropBatch? {
            DropsTheBatch(queue.rows, |rows|);
            queue.Acknowledge(IdsOf(rows));
            dropped := dropped + rows;
          }
          break;
      }
    }
  }

  lemma DropsTheBatch(queue: seq<Row>, n: nat)
    requires DistinctIds(queue) && n <= |queue|
    ensures Without(queue, Named(IdsOf(queue[..n]))) == queue[n..]
  {
    forall id: EventId ensures id in Named(IdsOf(queue[..n])) <==> id in Ids(queue[..n]) {
      NamedIds(queue[..n], id);
    }
    assert Named(IdsOf(queue[..n])) == Ids(queue[..n]);
    WithoutPrefix(queue, n, |queue|);
    assert queue[..|queue|] == queue;
  }

  // ---- What the loop promises ----------------------------------------------------------------------------------

  /** From `e` to `f`: a tail of the queue is left alone, and every row ahead of it is settled. */
  predicate Settles(e: Ends, f: Ends) {
    && e.stored <= f.stored && e.refused <= f.refused && e.dropped <= f.dropped
    && |f.queue| <= |e.queue| && f.queue == e.queue[|e.queue| - |f.queue|..]
    && AllSettled(e.queue[..|e.queue| - |f.queue|], f.stored, f.refused, f.dropped)
  }

  lemma SettlesOn(e: Ends, f: Ends, g: Ends)
    requires Settles(e, f) && Settles(f, g)
    ensures Settles(e, g)
  {
    hide AllSettled;
    var first, both := |e.queue| - |f.queue|, |e.queue| - |g.queue|;
    assert e.queue[..both] == e.queue[..first] + f.queue[..both - first];
    StillSettled(e.queue[..first], f.stored, f.refused, f.dropped, g.stored, g.refused, g.dropped);
    SettledTogether(e.queue[..first], f.queue[..both - first], g);
  }

  lemma SettledTogether(a: seq<Row>, b: seq<Row>, e: Ends)
    requires AllSettled(a, e.stored, e.refused, e.dropped) && AllSettled(b, e.stored, e.refused, e.dropped)
    ensures AllSettled(a + b, e.stored, e.refused, e.dropped)
  {
  }

  lemma StaysSettled(e: Ends)
    ensures Settles(e, e)
  {
  }

  lemma ServedSettles(e: Ends, rows: seq<Row>, flaws: Row -> set<Field>)
    ensures Settles(e, Served(e, rows, flaws))
  {
    EnqueuedHasAll(e.stored, Accepted(Bodies(rows, flaws)));
  }

  lemma ExchangedSettles(e: Ends, size: nat, flaws: Row -> set<Field>)
    ensures Settles(e, Exchanged(e, Oldest(e.queue, size), flaws))
  {
    hide Enqueued, Accepted, Bodies, Flawed, AllSettled;
    var rows := Oldest(e.queue, size);
    EnqueuedHasAll(e.stored, Accepted(Bodies(rows, flaws)));
    BatchSettled(e.stored, rows, flaws, e.refused, e.dropped);
  }

  lemma DiscardedSettles(e: Ends, size: nat)
    ensures Settles(e, Discarded(e, Oldest(e.queue, size)))
  {
  }

  /**
    Whatever the links do, the queue keeps an untouched tail of itself, nothing stored is
    lost, and every row that left is stored on the server, refused by it, or in a dropped batch.
   */
  lemma {:induction false} FlushSettles(e: Ends, links: seq<Link>, size: nat, flaws: Row -> set<Field>)
    ensures Settles(e, Flushed(e, links, size, flaws))
    decreases |links|
  {
    hide Settles, Served, Exchanged, Discarded;
    var rows := Oldest(e.queue, size);
    StaysSettled(e);
    if links != [] && rows != [] {
      match links[0] {
        case Answered =>
          ExchangedSettles(e, size, flaws);
          FlushSettles(Exchanged(e, rows, flaws), links[1..], size, flaws);
          SettlesOn(e, Exchanged(e, rows, flaws), Flushed(e, links, size, flaws));
        case ReplyLost => ServedSettles(e, rows, flaws);
        case RequestLost =>
        case Refused(action) =>
          if action.HalveBatch? {
            FlushSettles(e, links[1..], Max(1, size / 2), flaws);
          }
          DiscardedSettles(e, size);
      }
    }
  }

  /** Only what the server refuses is named refused, and only a drop order drops anything. */
  lemma {:induction false} FlushNamesOnlyTheFlawed(e: Ends, links: seq<Link>, size: nat, flaws: Row -> set<Field>)
    requires AllFlawed(e.refused, flaws)
    ensures AllFlawed(Flushed(e, links, size, flaws).refused, flaws)
    ensures Refused(DropBatch) !in links ==> Flushed(e, links, size, flaws).dropped == e.dropped
    decreases |links|
  {
    hide Flawed, Enqueued, Accepted, Bodies;
    var rows := Oldest(e.queue, size);
    if links != [] && rows != [] {
      FlawedMembers(rows, flaws);
      if links[0].Answered? {
        FlushNamesOnlyTheFlawed(Exchanged(e, rows, flaws), links[1..], size, flaws);
      } else if links[0] == Refused(HalveBatch) {
        FlushNamesOnlyTheFlawed(e, links[1..], Max(1, size / 2), flaws);
      }
    }
  }

  /** Answered throughout, the loop takes one full batch a link off the queue, poisoned events and all. */
  lemma {:induction false} FlushDrains(e: Ends, links: seq<Link>, size: nat, flaws: Row -> set<Field>)
    requires forall link :: link in links ==> link.Answered?
    ensures Flushed(e, links, size, flaws).queue == e.queue[Min(|links| * size, |e.queue|)..]
    decreases |links|
  {
    hide Served, Flawed;
    var rows := Oldest(e.queue, size);
    if links != [] {
      TakeThenTake(e.queue, |links|, size);
      if rows != [] {
        assert links[0].Answered?;
        FlushDrains(Exchanged(e, rows, flaws), links[1..], size, flaws);
      }
    }
  }

  lemma TakeThenTake(queue: seq<Row>, n: nat, size: nat)
    requires n > 0
    ensures var rest := queue[Min(size, |queue|)..];
            rest[Min((n - 1) * size, |rest|)..] == queue[Min(n * size, |queue|)..]
    ensures Oldest(queue, size) == [] ==> queue[Min(n * size, |queue|)..] == queue
  {
    assert n * size == size + (n - 1) * size;
    if size == 0 || queue == [] {
      assert Min(n * size, |queue|) == 0;
    }
  }

  // ---- How much a flush takes -----------------------------------------------------------------------------------

  /** The batch size in force at link `i`: halved once for each order to, but never below one row. */
  function SizeAt(links: seq<Link>, size: nat, i: nat): nat
    requires i <= |links|
  {
    if i == 0 then size
    else
      var before := SizeAt(links, size, i - 1);
      if links[i - 1] == Refused(HalveBatch) then (if before / 2 < 1 then 1 else before / 2) else before
  }

  /** Nothing before link `i` has ended the flush. */
  predicate Reached(links: seq<Link>, i: nat)
    requires i <= |links|
  {
    forall j :: 0 <= j < i ==> links[j] == Answered || links[j] == Refused(HalveBatch)
  }

  /** A batch leaves the queue on an answer, and on an order to drop it. */
  predicate Takes(link: Link) {
    link == Answered || link == Refused(DropBatch)
  }

  /** What the first `n` links take off a queue long enough. */
  function Wanted(links: seq<Link>, size: nat, n: nat): nat
    requires n <= |links|
  {
    if n == 0 then 0
    else
      Wanted(links, size, n - 1)
      + (if Reached(links, n - 1) && Takes(links[n - 1]) then SizeAt(links, size, n - 1) else 0)
  }

  /** The size after one link. */
  function NextSize(link: Link, size: nat): nat {
    if link == Refused(HalveBatch) then Max(1, size / 2) else size
  }

  lemma {:induction false} SizeShift(links: seq<Link>, size: nat, i: nat)
    requires 0 < i <= |links|
    ensures SizeAt(links, size, i) == SizeAt(links[1..], NextSize(links[0], size), i - 1)
    ensures Reached(links, i)
            <==> (links[0] == Answered || links[0] == Refused(HalveBatch)) && Reached(links[1..], i - 1)
  {
    var rest := links[1..];
    assert forall j :: 0 <= j < i - 1 ==> rest[j] == links[j + 1];
    if i > 1 {
      SizeShift(links, size, i - 1);
      assert links[i - 1] == rest[i - 2];
    }
    if Reached(links, i) {
      forall j | 0 <= j < i - 1 ensures rest[j] == Answered || rest[j] == Refused(HalveBatch) {
        assert links[j + 1] == rest[j];
      }
    }
  }

  lemma {:induction false} WantedShift(links: seq<Link>, size: nat, n: nat)
    requires 0 < n <= |links|
    ensures Wanted(links, size, n)
            == (if Takes(links[0]) then size else 0)
               + (if links[0] == Answered || links[0] == Refused(HalveBatch)
                  then Wanted(links[1..], NextSize(links[0], size), n - 1) else 0)
  {
    if n > 1 {
      WantedShift(links, size, n - 1);
      SizeShift(links, size, n - 1);
      assert links[n - 1] == links[1..][n - 2];
    } else {
      assert Wanted(links, size, 0) == 0 && Reached(links, 0);
    }
  }

  /** The batch link `i` finds in hand. */
  function BatchAt(queue: seq<Row>, links: seq<Link>, size: nat, i: nat): seq<Row>
    requires i < |links|
  {
    var from := Wanted(links, size, i);
    queue[Min(from, |queue|)..Min(from + SizeAt(links, size, i), |queue|)]
  }

  /** Some rows off the front, then a stretch of what is left. */
  lemma SliceRest(queue: seq<Row>, off: nat, from: nat, to: nat)
    requires from <= to
    ensures var rest := queue[Min(off, |queue|)..];
            rest[Min(from, |rest|)..Min(to, |rest|)] == queue[Min(off + from, |queue|)..Min(off + to, |queue|)]
  {
  }

  lemma DropRest(queue: seq<Row>, off: nat, from: nat)
    ensures var rest := queue[Min(off, |queue|)..];
            rest[Min(from, |rest|)..] == queue[Min(off + from, |queue|)..]
  {
  }

  lemma BatchShift(queue: seq<Row>, links: seq<Link>, size: nat, i: nat)
    requires 0 < i < |links| && Reached(links, i)
    ensures BatchAt(queue, links, size, i)
            == BatchAt(queue[if links[0] == Answered then Min(size, |queue|) else 0..], links[1..],
                       NextSize(links[0], size), i - 1)
  {
    hide SizeAt, Wanted, NextSize;
    SizeShift(links, size, i);
    WantedShift(links, size, i);
    var next, off := NextSize(links[0], size), if links[0] == Answered then size else 0;
    var from, taken := Wanted(links[1..], next, i - 1), SizeAt(links[1..], next, i - 1);
    assert links[0] == Answered || links[0] == Refused(HalveBatch);
    hide Reached;
    assert Wanted(links, size, i) == off + from && SizeAt(links, size, i) == taken;
    SliceRest(queue, off, from, from + taken);
  }

  /** The first link of a flush that finds something to send. */
  lemma FlushStep(e: Ends, links: seq<Link>, size: nat, flaws: Row -> set<Field>)
    requires links != [] && Oldest(e.queue, size) != []
    ensures var rows, f := Oldest(e.queue, size), Flushed(e, links, size, flaws);
            && (links[0] == Answered ==> f == Flushed(Exchanged(e, rows, flaws), links[1..], size, flaws))
            && (links[0] == Refused(HalveBatch) ==> f == Flushed(e, links[1..], NextSize(links[0], size), flaws))
            && (links[0] == Refused(DropBatch) ==> f == Discarded(e, rows))
            && (links[0] != Answered && links[0] != Refused(HalveBatch) && links[0] != Refused(DropBatch) ==>
                  f.queue == e.queue && f.dropped == e.dropped)
  {
    match links[0] {
      case Answered =>
      case RequestLost =>
      case ReplyLost =>
      case Refused(action) =>
        match action { case DropBatch => case HalveBatch => case OtherAction => }
    }
  }

  /**
    A flush takes exactly the batches its answered links and its drop order found in force, off
    the front of the queue.
   */
  lemma {:induction false} FlushTakesExactly(e: Ends, links: seq<Link>, size: nat, flaws: Row -> set<Field>)
    requires size > 0
    ensures Flushed(e, links, size, flaws).queue
            == e.queue[Min(Wanted(links, size, |links|), |e.queue|)..]
    decreases |links|
  {
    hide Served, Flawed, Wanted;
    var rows := Oldest(e.queue, size);
    NothingWanted(links, size);
    if links != [] && rows != [] {
      WantedShift(links, size, |links|);
      FlushStep(e, links, size, flaws);
      hide Flushed;
      if links[0] == Answered {
        FlushTakesExactly(Exchanged(e, rows, flaws), links[1..], size, flaws);
        DropRest(e.queue, size, Wanted(links[1..], size, |links| - 1));
      } else if links[0] == Refused(HalveBatch) {
        FlushTakesExactly(e, links[1..], NextSize(links[0], size), flaws);
      } else {
        assert e.queue[0..] == e.queue;
      }
    }
  }

  lemma NothingWanted(links: seq<Link>, size: nat)
    ensures Wanted(links, size, 0) == 0
  {
  }

  predicate DropsAt(links: seq<Link>, d: nat)
    requires d < |links|
  {
    Reached(links, d) && links[d] == Refused(DropBatch)
  }

  /** What the drop order found in force is named dropped. */
  lemma {:induction false} FlushDropsExactly(e: Ends, links: seq<Link>, size: nat, flaws: Row -> set<Field>, d: nat)
    requires size > 0 && d < |links| && DropsAt(links, d)
    ensures Flushed(e, links, size, flaws).dropped == e.dropped + BatchAt(e.queue, links, size, d)
    decreases |links|
  {
    hide Enqueued, Accepted, Bodies, Flawed, Wanted, SizeAt, BatchAt;
    var rows := Oldest(e.queue, size);
    FirstBatch(e.queue, links, size);
    if rows == [] {
      EmptyBatch(links, size, d);
    } else if d == 0 {
      FlushStep(e, links, size, flaws);
    } else {
      FlushStep(e, links, size, flaws);
      hide Flushed;
      assert links[0] == Answered || links[0] == Refused(HalveBatch);
      SizeShift(links, size, d);
      BatchShift(e.queue, links, size, d);
      assert links[d] == links[1..][d - 1] && e.queue[0..] == e.queue;
      if links[0] == Answered {
        FlushDropsExactly(Exchanged(e, rows, flaws), links[1..], size, flaws, d - 1);
      } else {
        FlushDropsExactly(e, links[1..], NextSize(links[0], size), flaws, d - 1);
      }
    }
  }

  /** And without one that is reached nothing is. */
  lemma {:induction false} FlushDropsOnlyOnOrder(e: Ends, links: seq<Link>, size: nat, flaws: Row -> set<Field>)
    requires forall d :: 0 <= d < |links| ==> !DropsAt(links, d)
    ensures Flushed(e, links, size, flaws).dropped == e.dropped
    decreases |links|
  {
    hide Enqueued, Accepted, Bodies, Flawed;
    var rows := Oldest(e.queue, size);
    if links != [] && rows != [] {
      assert !DropsAt(links, 0);
      FlushStep(e, links, size, flaws);
      hide Flushed;
      if links[0] == Answered || links[0] == Refused(HalveBatch) {
        forall d | 0 <= d < |links[1..]| ensures !DropsAt(links[1..], d) {
          SizeShift(links, size, d + 1);
          assert links[1..][d] == links[d + 1] && !DropsAt(links, d + 1);
        }
        if links[0] == Answered {
          FlushDropsOnlyOnOrder(Exchanged(e, rows, flaws), links[1..], size, flaws);
        } else {
          FlushDropsOnlyOnOrder(e, links[1..], NextSize(links[0], size), flaws);
        }
      }
    }
  }

  lemma FirstBatch(queue: seq<Row>, links: seq<Link>, size: nat)
    requires links != []
    ensures BatchAt(queue, links, size, 0) == Oldest(queue, size)
  {
    NothingWanted(links, size);
  }

  lemma EmptyBatch(links: seq<Link>, size: nat, i: nat)
    requires i < |links|
    ensures BatchAt([], links, size, i) == []
  {
  }

  /** A batch served, its reply heard or lost, has its sound rows stored; and heard, its flawed ones refused. */
  predicate ServedIn(rows: seq<Row>, heard: bool, f: Ends, flaws: Row -> set<Field>) {
    forall row :: row in rows ==>
      && (flaws(row) == {} ==> HasId(f.stored, row.eventId))
      && (heard && flaws(row) != {} ==> row in f.refused)
  }

  lemma ServedNow(e: Ends, rows: seq<Row>, flaws: Row -> set<Field>, heard: bool, f: Ends)
    requires Served(e, rows, flaws).stored <= f.stored
    requires heard ==> e.refused + Flawed(rows, flaws) <= f.refused
    ensures ServedIn(rows, heard, f, flaws)
  {
    ReplyPartitionsBatch(rows, flaws);
    EnqueuedHasAll(e.stored, Accepted(Bodies(rows, flaws)));
    FlawedMembers(rows, flaws);
    var stored := Served(e, rows, flaws).stored;
    forall row | row in rows && flaws(row) == {} ensures HasId(f.stored, row.eventId) {
      assert HasId(stored, row.eventId);
      var r :| r in stored && r.eventId == row.eventId;
      assert r in f.stored;
    }
    if heard {
      forall row | row in rows && flaws(row) != {} ensures row in f.refused {
        assert row in Flawed(rows, flaws);
        assert row in e.refused + Flawed(rows, flaws);
      }
    }
  }

  /** Every batch a flush has answered, or served in silence, went where it should. */
  lemma {:induction false} FlushServesExactly(
      e: Ends, links: seq<Link>, size: nat, flaws: Row -> set<Field>, i: nat)
    requires size > 0 && i < |links| && Reached(links, i) && (links[i].Answered? || links[i].ReplyLost?)
    ensures ServedIn(BatchAt(e.queue, links, size, i), links[i].Answered?, Flushed(e, links, size, flaws), flaws)
    decreases |links|
  {
    hide Served, Flawed, Wanted, SizeAt, BatchAt, ServedIn, Settles;
    var rows, f := Oldest(e.queue, size), Flushed(e, links, size, flaws);
    FirstBatch(e.queue, links, size);
    if rows == [] {
      EmptyBatch(links, size, i);
      assert ServedIn([], links[i].Answered?, f, flaws) by { NoneServed(links[i].Answered?, f, flaws); }
    } else if i == 0 {
      FlushSettles(if links[0].Answered? then Exchanged(e, rows, flaws) else Served(e, rows, flaws),
                   if links[0].Answered? then links[1..] else [], size, flaws);
      SettlesKeeps(if links[0].Answered? then Exchanged(e, rows, flaws) else Served(e, rows, flaws), f);
      ServedNow(e, rows, flaws, links[0].Answered?, f);
    } else {
      var next := if links[0].Answered? then Exchanged(e, rows, flaws) else e;
      SizeShift(links, size, i);
      BatchShift(e.queue, links, size, i);
      assert links[i] == links[1..][i - 1];
      FlushServesExactly(next, links[1..], NextSize(links[0], size), flaws, i - 1);
    }
  }

  lemma NoneServed(heard: bool, f: Ends, flaws: Row -> set<Field>)
    ensures ServedIn([], heard, f, flaws)
  {
  }

  lemma SettlesKeeps(e: Ends, f: Ends)
    requires Settles(e, f)
    ensures e.stored <= f.stored && e.refused <= f.refused
  {
  }

  // ---- Flush after flush -----------------------------------------------------------------------------------------

  /** What was enqueued since the last flush, and how the next one's links turn out. */
  datatype Round = Round(arrivals: seq<Row>, links: seq<Link>)

  /** Each flush starts from the full batch size again. */
  function AfterRounds(e: Ends, rounds: seq<Round>, n: nat, flaws: Row -> set<Field>): Ends
    requires n <= |rounds|
  {
    if n == 0 then e
    else
      var before, round := AfterRounds(e, rounds, n - 1, flaws), rounds[n - 1];
      Flushed(before.(queue := before.queue + round.arrivals), round.links, BATCH_SIZE, flaws)
  }

  function Arrived(rounds: seq<Round>, n: nat): seq<Row>
    requires n <= |rounds|
  {
    if n == 0 then [] else Arrived(rounds, n - 1) + rounds[n - 1].arrivals
  }

  function WantedOver(rounds: seq<Round>, n: nat): nat
    requires n <= |rounds|
  {
    if n == 0 then 0
    else WantedOver(rounds, n - 1) + Wanted(rounds[n - 1].links, 2000, |rounds[n - 1].links|)
  }

  /**
    Over any flushes, whatever arrives in between, what leaves is a front of all the rows, and of
    those there at the start exactly as many as the answers and drop orders were for: the row at
    place `p` is gone once they come to more than `p` rows, and not before.
   */
  lemma {:induction false} RoundsTakeExactly(e: Ends, rounds: seq<Round>, n: nat, flaws: Row -> set<Field>)
    requires n <= |rounds|
    ensures TakenOff(e.queue + Arrived(rounds, n), AfterRounds(e, rounds, n, flaws).queue, |e.queue|,
                     WantedOver(rounds, n))
  {
    hide Wanted, Flushed, TakenOff;
    if n == 0 {
      NothingTaken(e.queue, |e.queue|);
      assert e.queue + Arrived(rounds, 0) == e.queue;
    } else {
      RoundsTakeExactly(e, rounds, n - 1, flaws);
      var before, round := AfterRounds(e, rounds, n - 1, flaws), rounds[n - 1];
      var start := before.(queue := before.queue + round.arrivals);
      FlushTakesExactly(start, round.links, BATCH_SIZE, flaws);
      assert e.queue + Arrived(rounds, n) == e.queue + Arrived(rounds, n - 1) + round.arrivals;
      TakenOffAgain(e.queue + Arrived(rounds, n - 1), before.queue, |e.queue|, WantedOver(rounds, n - 1),
                    round.arrivals, Wanted(round.links, 2000, |round.links|));
    }
  }

  /** `left` is a tail of `all`, and of the first `here` rows exactly `taken` are gone, or all. */
  predicate TakenOff(all: seq<Row>, left: seq<Row>, here: nat, taken: nat) {
    && |left| <= |all| && left == all[|all| - |left|..]
    && Min(|all| - |left|, here) == Min(taken, here)
  }

  lemma NothingTaken(all: seq<Row>, here: nat)
    ensures TakenOff(all, all, here, 0)
  {
  }

  lemma TakenOffAgain(all: seq<Row>, left: seq<Row>, here: nat, taken: nat, arrivals: seq<Row>, more: nat)
    requires TakenOff(all, left, here, taken) && here <= |all|
    ensures var next := left + arrivals;
            TakenOff(all + arrivals, next[Min(more, |next|)..], here, taken + more)
  {
    var next, gone := left + arrivals, |all| - |left|;
    assert next == (all + arrivals)[gone..];
    assert next[Min(more, |next|)..] == (all + arrivals)[gone + Min(more, |next|)..];
  }

  /** A flush takes nothing off a queue exactly when no answer and no drop order is reached. */
  lemma {:induction false} TakesNothingExactly(links: seq<Link>, size: nat, n: nat)
    requires n <= |links| && size > 0
    ensures Wanted(links, size, n) == 0 <==> forall i :: 0 <= i < n && Reached(links, i) ==> !Takes(links[i])
  {
    if n > 0 {
      TakesNothingExactly(links, size, n - 1);
      SizeStaysPositive(links, size, n - 1);
    }
  }

  lemma {:induction false} SizeStaysPositive(links: seq<Link>, size: nat, i: nat)
    requires i <= |links| && size > 0
    ensures SizeAt(links, size, i) > 0
  {
    if i > 0 {
      SizeStaysPositive(links, size, i - 1);
    }
  }

  /** A server that answers batches of at most `limit` rows and has any other halved. */
  predicate HalvesOver(queue: seq<Row>, links: seq<Link>, limit: nat) {
    forall i :: 0 <= i < |links| && (forall j :: 0 <= j < i ==> links[j] == Refused(HalveBatch)) ==>
      links[i] == if Min(SizeAt(links, 2000, i), |queue|) <= limit then Answered else Refused(HalveBatch)
  }

  lemma HalvedThrice(links: seq<Link>)
    requires |links| == 4
    ensures SizeAt(links, 2000, 0) == 2000
    ensures links[0] == Refused(HalveBatch) ==> SizeAt(links, 2000, 1) == 1000
    ensures links[0] == links[1] == Refused(HalveBatch) ==> SizeAt(links, 2000, 2) == 500
    ensures links[0] == links[1] == links[2] == Refused(HalveBatch) ==> SizeAt(links, 2000, 3) == 250
  {
    assert SizeAt(links, 2000, 1) == if links[0] == Refused(HalveBatch) then 1000 else 2000;
    assert links[0] == links[1] == Refused(HalveBatch) ==> SizeAt(links, 2000, 2) == 500;
  }

  /**
    The size does not outlive its flush, and a flush halves it three times before it gives up: a
    server that takes no batch of 250 is sent none it takes, and nothing leaves, unless the whole
    queue is short enough.
   */
  lemma HalvingGetsThroughExactly(e: Ends, links: seq<Link>, limit: nat, flaws: Row -> set<Field>)
    requires e.queue != [] && |links| == MAX_BATCHES_PER_TICK && HalvesOver(e.queue, links, limit)
    ensures Flushed(e, links, BATCH_SIZE, flaws).queue != e.queue <==> limit >= Min(250, |e.queue|)
  {
    hide SizeAt, Wanted, Flushed;
    HalvedThrice(links);
    FlushTakesExactly(e, links, BATCH_SIZE, flaws);
    TakesNothingExactly(links, BATCH_SIZE, 4);
    assert Reached(links, 0) && (Reached(links, 1) <==> links[0] == Answered || links[0] == Refused(HalveBatch));
    if Min(2000, |e.queue|) <= limit {
      assert Takes(links[0]);
    } else if Min(1000, |e.queue|) <= limit {
      assert links[0] == Refused(HalveBatch);
      assert Takes(links[1]);
    } else if Min(500, |e.queue|) <= limit {
      assert links[0] == Refused(HalveBatch) && links[1] == Refused(HalveBatch);
      assert Reached(links, 2) && Takes(links[2]);
    } else if Min(250, |e.queue|) <= limit {
      assert links[0] == Refused(HalveBatch) && links[1] == Refused(HalveBatch) && links[2] == Refused(HalveBatch);
      assert Reached(links, 3) && Takes(links[3]);
    } else {
      assert links[0] == Refused(HalveBatch) && links[1] == Refused(HalveBatch) && links[2] == Refused(HalveBatch);
      assert links[3] == Refused(HalveBatch);
    }
  }

  /** Every flush meets such a server. */
  predicate HalvedThroughout(e: Ends, rounds: seq<Round>, limit: nat, flaws: Row -> set<Field>) {
    forall n :: 0 <= n < |rounds| ==>
      && |rounds[n].links| == MAX_BATCHES_PER_TICK
      && HalvesOver(AfterRounds(e, rounds, n, flaws).queue + rounds[n].arrivals, rounds[n].links, limit)
  }

  /** So a queue it has once refused to its last halving stays as it is, and only grows, for ever. */
  lemma {:induction false} HalvingWedges(
      e: Ends, rounds: seq<Round>, limit: nat, n: nat, flaws: Row -> set<Field>)
    requires n <= |rounds| && HalvedThroughout(e, rounds, limit, flaws)
    requires e.queue != [] && limit < Min(250, |e.queue|)
    ensures AfterRounds(e, rounds, n, flaws).queue == e.queue + Arrived(rounds, n)
  {
    hide HalvesOver, Flushed;
    if n > 0 {
      HalvingWedges(e, rounds, limit, n - 1, flaws);
      var before, round := AfterRounds(e, rounds, n - 1, flaws), rounds[n - 1];
      HalvingGetsThroughExactly(before.(queue := before.queue + round.arrivals), round.links, limit, flaws);
    }
  }
}
