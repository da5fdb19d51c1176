/**
  The server's event intake: validate each event, never the batch; accept every valid
  id whether or not its row was already there; refuse the rest for good.
 */
module EventsRoute {
  import opened Basics
  import opened Events
  import opened Queue

  const MAX_BATCH_EVENTS := 2000

  /** The envelope fields a refusal can be about. */
  datatype Field = EventIdField | ClassField | OtherField

  /** One raw event: its id when that is a string, the row it would be, and what is wrong with it. */
  datatype Raw = Raw(id: Option<EventId>, row: Row, issues: set<Field>)

  datatype Reason = BadEventIdFormat | BadEventClass | Schema

  datatype Rejection = Rejection(id: Option<EventId>, reason: Reason)

  /** The id comes from the raw value: the agent must know which queued event to drop. */
  function Classify(raw: Raw): Rejection {
    Rejection(raw.id,
              if EventIdField in raw.issues then BadEventIdFormat
              else if ClassField in raw.issues then BadEventClass
              else Schema)
  }

  predicate Clean(raw: Raw) {
    raw.issues == {}
  }

  function Accepted(batch: seq<Raw>): seq<Row> {
    if batch == [] then []
    else
      var front, last := Accepted(batch[..|batch| - 1]), batch[|batch| - 1];
      if Clean(last) then front + [last.row] else front
  }

  function Rejected(batch: seq<Raw>): seq<Rejection> {
    if batch == [] then []
    else
      var front, last := Rejected(batch[..|batch| - 1]), batch[|batch| - 1];
      if Clean(last) then front else front + [Classify(last)]
  }

  function IdsOf(rows: seq<Row>): seq<EventId> {
    if rows == [] then [] else IdsOf(rows[..|rows| - 1]) + [rows[|rows| - 1].eventId]
  }

  datatype Reply = TooLarge | Taken(accepted: seq<EventId>, rejected: seq<Rejection>)

  class Intake {
    var stored: seq<Row>

    constructor ()
      ensures stored == []
    {
      stored := [];
    }

    /**
      Every valid id submitted is accepted, not just the rows newly inserted: a row
      already stored is already durable.
     */
    method HandleEvents(batch: seq<Raw>) returns (reply: Reply)
      requires DistinctIds(stored)
      modifies this
      ensures DistinctIds(stored)
      ensures |batch| > MAX_BATCH_EVENTS ==> reply.TooLarge? && stored == old(stored)
      ensures |batch| <= MAX_BATCH_EVENTS ==>
                && reply == Taken(IdsOf(Accepted(batch)), Rejected(batch))
                && stored == Enqueued(old(stored), Accepted(batch))
    {
      if |batch| > MAX_BATCH_EVENTS {
        return TooLarge;
      }
      var accepted: seq<EventId>, rejected: seq<Rejection>, rows: seq<Row> := [], [], [];
      for i := 0 to |batch|
        invariant rows == Accepted(batch[..i])
        invariant accepted == IdsOf(rows)
        invariant rejected == Rejected(batch[..i])
      {
        var raw := batch[i];
        assert batch[..i + 1][..i] == batch[..i];
        if raw.issues != {} {
          rejected := rejected + [Classify(raw)];
          continue;
        }
        assert (rows + [raw.row])[..|rows|] == rows;
        accepted := accepted + [raw.row.eventId];
        rows := rows + [raw.row];
      }
      assert batch[..|batch|] == batch;
      InsertAll(rows);
      reply := Taken(accepted, rejected);
    }

    /** One insert; conflicting ids do nothing. */
    method InsertAll(rows: seq<Row>)
      requires DistinctIds(stored)
      modifies this
      ensures DistinctIds(stored) && stored == Enqueued(old(stored), rows)
    {
      for i := 0 to |rows|
        invariant DistinctIds(stored) && stored == Enqueued(old(stored), rows[..i])
      {
        assert rows[..i + 1][..i] == rows[..i];
        if !HasId(stored, rows[i].eventId) {
          stored := stored + [rows[i]];
        }
      }
      assert rows[..|rows|] == rows;
    }
  }

  // ---- The partition -----------------------------------------------------------------------------------

  /** Every flawed event is refused under its own id, for its id before its class, and for either before the rest. */
  lemma {:induction false} ReasonsExactly(batch: seq<Raw>, raw: Raw)
    requires raw in batch && raw.issues != {}
    ensures exists r :: r in Rejected(batch) && r.id == raw.id
              && (r.reason.BadEventIdFormat? <==> EventIdField in raw.issues)
              && (r.reason.BadEventClass? <==> ClassField in raw.issues && EventIdField !in raw.issues)
  {
    var front, last := batch[..|batch| - 1], batch[|batch| - 1];
    assert batch == front + [last];
    if raw == last {
      assert Classify(last) in Rejected(batch);
    } else {
      ReasonsExactly(front, raw);
    }
  }

  /** What the agent sends: every row with its own id, whatever the server will think of it. */
  function Bodies(rows: seq<Row>, flaws: Row -> set<Field>): seq<Raw> {
    if rows == [] then []
    else
      var last := rows[|rows| - 1];
      Bodies(rows[..|rows| - 1], flaws) + [Raw(Some(last.eventId), last, flaws(last))]
  }

  function RejectedIds(rejected: seq<Rejection>): set<EventId> {
    set r | r in rejected && r.id.Some? :: r.id.value
  }

  lemma {:induction false} BodiesLength(rows: seq<Row>, flaws: Row -> set<Field>)
    ensures |Bodies(rows, flaws)| == |rows|
  {
    if rows != [] {
      BodiesLength(rows[..|rows| - 1], flaws);
    }
  }

  lemma {:induction false} NamedIds(rows: seq<Row>, id: EventId)
    ensures id in IdsOf(rows) <==> exists row :: row in rows && row.eventId == id
  {
    if rows != [] {
      NamedIds(rows[..|rows| - 1], id);
      assert rows == rows[..|rows| - 1] + [rows[|rows| - 1]];
    }
  }

  /** Accepted and rejected partition the batch: each row lands on the side its flaws put it. */
  lemma {:induction false} ReplyPartitionsBatch(rows: seq<Row>, flaws: Row -> set<Field>)
    ensures var batch := Bodies(rows, flaws);
            && |Accepted(batch)| + |Rejected(batch)| == |rows|
            && (forall row :: row in Accepted(batch) <==> row in rows && flaws(row) == {})
            && (forall id :: id in RejectedIds(Rejected(batch))
                  <==> exists row :: row in rows && flaws(row) != {} && row.eventId == id)
  {
    if rows != [] {
      var front, last := rows[..|rows| - 1], rows[|rows| - 1];
      ReplyPartitionsBatch(front, flaws);
      assert rows == front + [last];
      var batch := Bodies(rows, flaws);
      assert batch[..|batch| - 1] == Bodies(front, flaws);
      var raw := Raw(Some(last.eventId), last, flaws(last));
      var before, after := Rejected(Bodies(front, flaws)), Rejected(batch);
      if flaws(last) != {} {
        assert after == before + [Classify(raw)];
        assert RejectedIds(after) == RejectedIds(before) + {last.eventId};
      }
    }
  }

  lemma SidesMakeTheBatch(rows: seq<Row>, flaws: Row -> set<Field>)
    ensures var batch := Bodies(rows, flaws);
            Named(IdsOf(Accepted(batch))) + RejectedIds(Rejected(batch)) == Ids(rows)
  {
    var batch := Bodies(rows, flaws);
    ReplyPartitionsBatch(rows, flaws);
    forall id: EventId
      ensures id in Named(IdsOf(Accepted(batch))) + RejectedIds(Rejected(batch)) <==> id in Ids(rows)
    {
      NamedIds(Accepted(batch), id);
    }
  }

  /**
    A delivered exchange removes exactly the batch sent, valid and poisoned alike, so no
    event can hold up the ones behind it.
   */
  lemma ExchangeRemovesExactlyTheBatch(queue: seq<Row>, size: nat, flaws: Row -> set<Field>)
    requires DistinctIds(queue)
    ensures var batch := Bodies(Oldest(queue, size), flaws);
            Without(Without(queue, Named(IdsOf(Accepted(batch)))), RejectedIds(Rejected(batch)))
            == queue[Min(size, |queue|)..]
  {
    hide Without, Accepted, Rejected, Bodies, Ids;
    var sent := Oldest(queue, size);
    var batch := Bodies(sent, flaws);
    SidesMakeTheBatch(sent, flaws);
    WithoutTwice(queue, Named(IdsOf(Accepted(batch))), RejectedIds(Rejected(batch)));
    WithoutPrefix(queue, Min(size, |queue|), |queue|);
    assert queue[..|queue|] == queue;
  }

  lemma {:induction false} WithoutPrefix(queue: seq<Row>, n: nat, m: nat)
    requires DistinctIds(queue) && n <= m <= |queue|
    ensures Without(queue[..m], Ids(queue[..n])) == queue[n..m]
  {
    if m > n {
      assert queue[..m][..m - 1] == queue[..m - 1];
      WithoutPrefix(queue, n, m - 1);
      NotAmong(queue[..n], queue[m - 1].eventId);
    } else {
      AllGone(queue[..n], Ids(queue[..n]));
    }
  }

  lemma NotAmong(rows: seq<Row>, id: EventId)
    requires forall k :: 0 <= k < |rows| ==> rows[k].eventId != id
    ensures id !in Ids(rows)
  {
  }

  lemma {:induction false} AllGone(rows: seq<Row>, ids: set<EventId>)
    requires forall row :: row in rows ==> row.eventId in ids
    ensures Without(rows, ids) == []
  {
    if rows != [] {
      assert rows == rows[..|rows| - 1] + [rows[|rows| - 1]];
      AllGone(rows[..|rows| - 1], ids);
    }
  }
}
