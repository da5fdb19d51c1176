/**
  The durable queue: rows in insertion order, unique by event id, removed only by
  acknowledgement or by an eviction that is counted.
 */
module Queue {
  import opened Basics
  import opened QueuePolicy
  import opened Events

  predicate HasId(rows: seq<Row>, id: EventId) {
    exists row :: row in rows && row.eventId == id
  }

  predicate DistinctIds(rows: seq<Row>) {
    forall i, j :: 0 <= i < j < |rows| ==> rows[i].eventId != rows[j].eventId
  }

  function Inserted(rows: seq<Row>, row: Row): seq<Row> {
    if HasId(rows, row.eventId) then rows else rows + [row]
  }

  function Enqueued(rows: seq<Row>, added: seq<Row>): seq<Row> {
    if added == [] then rows else Inserted(Enqueued(rows, added[..|added| - 1]), added[|added| - 1])
  }

  function Without(rows: seq<Row>, ids: set<EventId>): seq<Row> {
    if rows == [] then []
    else
      var front, last := Without(rows[..|rows| - 1], ids), rows[|rows| - 1];
      if last.eventId in ids then front else front + [last]
  }

  function Ids(rows: seq<Row>): set<EventId> {
    set row | row in rows :: row.eventId
  }

  function Named(ids: seq<EventId>): set<EventId> {
    set id | id in ids
  }

  function Oldest(rows: seq<Row>, limit: nat): seq<Row> {
    rows[..Min(limit, |rows|)]
  }

  // ---- Census --------------------------------------------------------------------------------------

  function CountOf(rows: seq<Row>, cls: Class): nat {
    if rows == [] then 0
    else CountOf(rows[..|rows| - 1], cls) + (if rows[|rows| - 1].cls == cls then 1 else 0)
  }

  function BytesOf(rows: seq<Row>, cls: Class): nat {
    if rows == [] then 0
    else BytesOf(rows[..|rows| - 1], cls) + (if rows[|rows| - 1].cls == cls then rows[|rows| - 1].bytes else 0)
  }

  function OldestOf(rows: seq<Row>, cls: Class): Option<Instant> {
    if rows == [] then None
    else
      var front, last := OldestOf(rows[..|rows| - 1], cls), rows[|rows| - 1];
      if last.cls != cls then front
      else if front.None? || last.queuedAt < front.value then Some(last.queuedAt)
      else front
  }

  function CensusOf(rows: seq<Row>): Census {
    Census(CountOf(rows, SampleClass), BytesOf(rows, SampleClass), CountOf(rows, AuditClass), BytesOf(rows, AuditClass),
           OldestOf(rows, SampleClass), OldestOf(rows, AuditClass))
  }

  // ---- Eviction --------------------------------------------------------------------------------------

  function OlderThan(rows: seq<Row>, cls: Class, cutoff: Instant): seq<Row> {
    if rows == [] then []
    else
      var front, last := OlderThan(rows[..|rows| - 1], cls, cutoff), rows[|rows| - 1];
      if last.cls == cls && last.queuedAt < cutoff then front + [last] else front
  }

  /** The first `limit` rows of a class, in insertion order. */
  function FirstOf(rows: seq<Row>, cls: Class, limit: nat): seq<Row> {
    if rows == [] then []
    else
      var front, last := FirstOf(rows[..|rows| - 1], cls, limit), rows[|rows| - 1];
      if last.cls == cls && |front| < limit then front + [last] else front
  }

  function Victims(rows: seq<Row>, e: Eviction): seq<Row> {
    if e.olderThan.Some? then OlderThan(rows, e.cls, e.olderThan.value)
    else FirstOf(rows, e.cls, e.rows)
  }

  function AfterEviction(rows: seq<Row>, e: Eviction): seq<Row> {
    Without(rows, Ids(Victims(rows, e)))
  }

  function AfterEvictions(rows: seq<Row>, plan: seq<Eviction>): seq<Row> {
    if plan == [] then rows
    else AfterEviction(AfterEvictions(rows, plan[..|plan| - 1]), plan[|plan| - 1])
  }

  /** Every row a plan removes, in the order it removes them. */
  function AllVictims(rows: seq<Row>, plan: seq<Eviction>): seq<Row> {
    if plan == [] then []
    else
      AllVictims(rows, plan[..|plan| - 1])
      + Victims(AfterEvictions(rows, plan[..|plan| - 1]), plan[|plan| - 1])
  }

  // ---- The table ---------------------------------------------------------------------------------------

  class Store {
    var rows: seq<Row>

    ghost predicate Valid()
      reads this
    {
      DistinctIds(rows)
    }

    constructor ()
      ensures Valid() && rows == []
    {
      rows := [];
    }

    /** One transaction: insert each row whose id is not there yet. */
    method Enqueue(added: seq<Row>) returns (inserted: nat)
      requires Valid()
      modifies this
      ensures Valid()
      ensures rows == Enqueued(old(rows), added)
      ensures |rows| == |old(rows)| + inserted
    {
      inserted := 0;
      for i := 0 to |added|
        invariant rows == Enqueued(old(rows), added[..i])
        invariant Valid() && |rows| == |old(rows)| + inserted
      {
        assert added[..i + 1][..i] == added[..i];
        if !HasId(rows, added[i].eventId) {
          rows := rows + [added[i]];
          inserted := inserted + 1;
        }
      }
      assert added[..|added|] == added;
    }

    /** The oldest rows by insertion, never by timestamp. */
    method Batch(limit: nat) returns (batch: seq<Row>)
      ensures batch == Oldest(rows, limit)
    {
      batch := [];
      while |batch| < limit && |batch| < |rows|
        invariant |batch| <= limit && |batch| <= |rows| && batch == rows[..|batch|]
        decreases |rows| - |batch|
      {
        batch := batch + [rows[|batch|]];
      }
    }

    /** Remove exactly the ids named. */
    method Acknowledge(ids: seq<EventId>)
      requires Valid()
      modifies this
      ensures Valid()
      ensures rows == Without(old(rows), Named(ids))
    {
      WithoutNone(rows);
      assert Named(ids[..0]) == {};
      for i := 0 to |ids|
        invariant rows == Without(old(rows), Named(ids[..i]))
      {
        WithoutTwice(old(rows), Named(ids[..i]), {ids[i]});
        assert ids[..i + 1] == ids[..i] + [ids[i]];
        assert Named(ids[..i + 1]) == Named(ids[..i]) + {ids[i]};
        rows := Without(rows, {ids[i]});
      }
      assert ids[..|ids|] == ids;
      WithoutKeepsDistinct(old(rows), Named(ids));
    }

    method TakeCensus() returns (census: Census)
      ensures census == CensusOf(rows)
    {
      census := Census(0, 0, 0, 0, None, None);
      for i := 0 to |rows|
        invariant census == CensusOf(rows[..i])
      {
        assert rows[..i + 1][..i] == rows[..i];
        var row := rows[i];
        match row.cls {
          case SampleClass =>
            census := census.(sampleCount := census.sampleCount + 1, sampleBytes := census.sampleBytes + row.bytes,
                              oldestSampleAt := Earlier(census.oldestSampleAt, row.queuedAt));
          case AuditClass =>
            census := census.(auditCount := census.auditCount + 1, auditBytes := census.auditBytes + row.bytes,
                              oldestAuditAt := Earlier(census.oldestAuditAt, row.queuedAt));
        }
      }
      assert rows[..|rows|] == rows;
    }

    /** Apply a plan and report what was actually lost. */
    method Evict(plan: seq<Eviction>) returns (evicted: nat)
      requires Valid()
      modifies this
      ensures Valid()
      ensures rows == AfterEvictions(old(rows), plan)
      ensures evicted == |AllVictims(old(rows), plan)|
    {
      evicted := 0;
      for i := 0 to |plan|
        invariant Valid()
        invariant rows == AfterEvictions(old(rows), plan[..i])
        invariant evicted == |AllVictims(old(rows), plan[..i])|
      {
        assert plan[..i + 1][..i] == plan[..i];
        var victims := Victims(rows, plan[i]);
        var ids := seq(|victims|, k requires 0 <= k < |victims| => victims[k].eventId);
        IdsListed(victims, ids);
        Acknowledge(ids);
        evicted := evicted + |victims|;
      }
      assert plan[..|plan|] == plan;
    }
  }

  function Earlier(oldest: Option<Instant>, at: Instant): Option<Instant> {
    if oldest.None? || at < oldest.value then Some(at) else oldest
  }

  lemma IdsListed(rows: seq<Row>, ids: seq<EventId>)
    requires |ids| == |rows| && forall k :: 0 <= k < |rows| ==> ids[k] == rows[k].eventId
    ensures Named(ids) == Ids(rows)
  {
    forall id: EventId ensures id in ids <==> id in Ids(rows) {
      if id in ids {
        var k :| 0 <= k < |ids| && ids[k] == id;
        assert rows[k] in rows;
      }
      if id in Ids(rows) {
        var row :| row in rows && row.eventId == id;
        var k :| 0 <= k < |rows| && rows[k] == row;
        assert ids[k] == id;
      }
    }
  }

  lemma {:induction false} WithoutNone(rows: seq<Row>)
    ensures Without(rows, {}) == rows
  {
    if rows != [] {
      WithoutNone(rows[..|rows| - 1]);
      assert rows == rows[..|rows| - 1] + [rows[|rows| - 1]];
    }
  }

  lemma {:induction false} WithoutLast(rows: seq<Row>, last: Row, ids: set<EventId>)
    ensures Without(rows + [last], ids)
            == if last.eventId in ids then Without(rows, ids) else Without(rows, ids) + [last]
  {
    assert (rows + [last])[..|rows|] == rows;
  }

  lemma {:induction false} WithoutTwice(rows: seq<Row>, ids: set<EventId>, more: set<EventId>)
    ensures Without(Without(rows, ids), more) == Without(rows, ids + more)
  {
    if rows != [] {
      var front, last := rows[..|rows| - 1], rows[|rows| - 1];
      WithoutTwice(front, ids, more);
      WithoutLast(Without(front, ids), last, more);
    }
  }

  lemma {:induction false} WithoutMembers(rows: seq<Row>, ids: set<EventId>)
    ensures forall row :: row in Without(rows, ids) <==> row in rows && row.eventId !in ids
  {
    if rows != [] {
      WithoutMembers(rows[..|rows| - 1], ids);
      assert rows == rows[..|rows| - 1] + [rows[|rows| - 1]];
    }
  }

  lemma {:induction false} WithoutKeepsDistinct(rows: seq<Row>, ids: set<EventId>)
    requires DistinctIds(rows)
    ensures DistinctIds(Without(rows, ids))
  {
    if rows != [] {
      var front, last := rows[..|rows| - 1], rows[|rows| - 1];
      WithoutKeepsDistinct(front, ids);
      WithoutMembers(front, ids);
      var kept := Without(front, ids);
      forall i | 0 <= i < |kept| ensures kept[i].eventId != last.eventId {
        assert kept[i] in kept && kept[i] in front;
        var k :| 0 <= k < |front| && front[k] == kept[i];
        assert rows[k] == front[k];
      }
    }
  }
}
