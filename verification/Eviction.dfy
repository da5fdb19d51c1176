/**
  What an eviction pass keeps: every row it removes is counted, samples go before audits,
  and the pass settles.
 */
module Eviction {
  import opened Basics
  import opened QueuePolicy
  import opened Events
  import opened Queue

  // ---- Victims are rows, once each ----------------------------------------------------------------------

  lemma {:induction false} VictimsAreRows(rows: seq<Row>, e: Eviction)
    ensures forall row :: row in Victims(rows, e) ==>
              row in rows && row.cls == e.cls && (e.olderThan.Some? ==> row.queuedAt < e.olderThan.value)
    ensures DistinctIds(rows) ==> DistinctIds(Victims(rows, e))
  {
    if rows != [] {
      var front, last := rows[..|rows| - 1], rows[|rows| - 1];
      assert rows == front + [last];
      VictimsAreRows(front, e);
      if DistinctIds(rows) {
        NotAmong(front, last, Victims(front, e));
      }
    }
  }

  lemma NotAmong(front: seq<Row>, last: Row, victims: seq<Row>)
    requires DistinctIds(front + [last]) && forall row :: row in victims ==> row in front
    ensures forall i :: 0 <= i < |victims| ==> victims[i].eventId != last.eventId
  {
    forall i | 0 <= i < |victims| ensures victims[i].eventId != last.eventId {
      assert victims[i] in victims;
      var k :| 0 <= k < |front| && front[k] == victims[i];
      assert (front + [last])[k] == front[k] && (front + [last])[|front|] == last;
    }
  }

  lemma SameIdSameRow(rows: seq<Row>, a: Row, b: Row)
    requires DistinctIds(rows) && a in rows && b in rows && a.eventId == b.eventId
    ensures a == b
  {
  }

  lemma {:induction false} OnceEach(rows: seq<Row>, row: Row)
    requires DistinctIds(rows)
    ensures multiset(rows)[row] == if row in rows then 1 else 0
  {
    if rows != [] {
      var front, last := rows[..|rows| - 1], rows[|rows| - 1];
      OnceEach(front, row);
      assert rows == front + [last];
      if row in front {
        var k :| 0 <= k < |front| && front[k] == row;
        assert rows[k] == row;
      }
    }
  }

  /** One eviction splits the queue in two: what is left and what was named. */
  lemma EvictionSplits(rows: seq<Row>, e: Eviction)
    requires DistinctIds(rows)
    ensures multiset(AfterEviction(rows, e)) + multiset(Victims(rows, e)) == multiset(rows)
    ensures DistinctIds(AfterEviction(rows, e))
  {
    var victims, left := Victims(rows, e), AfterEviction(rows, e);
    VictimsAreRows(rows, e);
    WithoutKeepsDistinct(rows, Ids(victims));
    WithoutMembers(rows, Ids(victims));
    forall row: Row ensures multiset(left)[row] + multiset(victims)[row] == multiset(rows)[row] {
      OnceEach(rows, row);
      OnceEach(left, row);
      OnceEach(victims, row);
      if row in rows && row.eventId in Ids(victims) {
        var v :| v in victims && v.eventId == row.eventId;
        SameIdSameRow(rows, row, v);
      }
    }
  }

  /** Conservation: for any plan, what is left plus what is reported evicted is what there was. */
  lemma {:induction false} EvictionConserves(rows: seq<Row>, plan: seq<Eviction>)
    requires DistinctIds(rows)
    ensures multiset(AfterEvictions(rows, plan)) + multiset(AllVictims(rows, plan)) == multiset(rows)
    ensures |AfterEvictions(rows, plan)| + |AllVictims(rows, plan)| == |rows|
    ensures DistinctIds(AfterEvictions(rows, plan))
  {
    if plan != [] {
      var front := plan[..|plan| - 1];
      EvictionConserves(rows, front);
      EvictionSplits(AfterEvictions(rows, front), plan[|plan| - 1]);
      var before := AfterEvictions(rows, front);
      var last := plan[|plan| - 1];
      assert multiset(AllVictims(rows, plan)) == multiset(AllVictims(rows, front)) + multiset(Victims(before, last));
    }
    assert |multiset(AfterEvictions(rows, plan)) + multiset(AllVictims(rows, plan))| == |multiset(rows)|;
  }

  // ---- Counting by class -----------------------------------------------------------------------------------

  lemma {:induction false} CountsAddUp(rows: seq<Row>)
    ensures CountOf(rows, SampleClass) + CountOf(rows, AuditClass) == |rows|
  {
    if rows != [] {
      CountsAddUp(rows[..|rows| - 1]);
    }
  }

  lemma {:induction false} CountLast(rows: seq<Row>, last: Row, cls: Class)
    ensures CountOf(rows + [last], cls) == CountOf(rows, cls) + (if last.cls == cls then 1 else 0)
  {
    assert (rows + [last])[..|rows|] == rows;
  }

  lemma {:induction false} WithoutCountsLess(rows: seq<Row>, ids: set<EventId>, cls: Class)
    ensures CountOf(Without(rows, ids), cls) <= CountOf(rows, cls)
  {
    if rows != [] {
      var front, last := rows[..|rows| - 1], rows[|rows| - 1];
      WithoutCountsLess(front, ids, cls);
      CountLast(Without(front, ids), last, cls);
    }
  }

  lemma {:induction false} FirstOfCount(rows: seq<Row>, cls: Class, limit: nat)
    ensures |FirstOf(rows, cls, limit)| == Min(limit, CountOf(rows, cls))
  {
    if rows != [] {
      FirstOfCount(rows[..|rows| - 1], cls, limit);
    }
  }

  /** Evicting the oldest rows of a class leaves that class shorter by them, or empty. */
  /** A size eviction takes a class from its oldest row on: with a row goes every earlier one of the class. */
  lemma {:induction false} OldestGoFirst(rows: seq<Row>, cls: Class, limit: nat, i: nat, j: nat)
    requires i < j < |rows| && rows[i].cls == rows[j].cls == cls
    requires DistinctIds(rows) && rows[j] in FirstOf(rows, cls, limit)
    ensures rows[i] in FirstOf(rows, cls, limit)
  {
    var front, last := rows[..|rows| - 1], rows[|rows| - 1];
    if j < |rows| - 1 {
      FirstOfRows(front, cls, limit);
      assert rows[j] in FirstOf(front, cls, limit);
      OldestGoFirst(front, cls, limit, i, j);
    } else {
      assert front[i] == rows[i];
      if rows[j] in FirstOf(front, cls, limit) {
        FirstOfRows(front, cls, limit);
        assert false;
      }
      AllOfAFew(front, cls, limit, i);
    }
  }

  lemma {:induction false} FirstOfRows(rows: seq<Row>, cls: Class, limit: nat)
    ensures forall row :: row in FirstOf(rows, cls, limit) ==> row in rows && row.cls == cls
  {
    if rows != [] {
      FirstOfRows(rows[..|rows| - 1], cls, limit);
      assert rows == rows[..|rows| - 1] + [rows[|rows| - 1]];
    }
  }

  /** While the limit is not reached every row of the class is taken. */
  lemma {:induction false} AllOfAFew(rows: seq<Row>, cls: Class, limit: nat, i: nat)
    requires |FirstOf(rows, cls, limit)| < limit
    requires i < |rows| && rows[i].cls == cls
    ensures rows[i] in FirstOf(rows, cls, limit)
  {
    var front := rows[..|rows| - 1];
    if i < |rows| - 1 {
      assert front[i] == rows[i];
      AllOfAFew(front, cls, limit, i);
    }
  }

  lemma SizeEvictionCounts(rows: seq<Row>, cls: Class, limit: nat, reason: Reason)
    requires DistinctIds(rows)
    ensures var left := AfterEviction(rows, Eviction(cls, limit, None, reason));
            && |left| == |rows| - Min(limit, CountOf(rows, cls))
            && CountOf(left, cls) == CountOf(rows, cls) - Min(limit, CountOf(rows, cls))
  {
    hide AfterEviction, Victims, CountOf;
    var e := Eviction(cls, limit, None, reason);
    var left := AfterEviction(rows, e);
    var other := if cls.SampleClass? then AuditClass else SampleClass;
    EvictionLength(rows, e);
    VictimsOfSize(rows, cls, limit, reason);
    OtherClassUntouched(rows, e, other);
    CountsAddUp(rows);
    CountsAddUp(left);
  }

  lemma EvictionLength(rows: seq<Row>, e: Eviction)
    requires DistinctIds(rows)
    ensures |AfterEviction(rows, e)| + |Victims(rows, e)| == |rows|
  {
    EvictionSplits(rows, e);
    assert |multiset(AfterEviction(rows, e)) + multiset(Victims(rows, e))| == |multiset(rows)|;
  }

  lemma VictimsOfSize(rows: seq<Row>, cls: Class, limit: nat, reason: Reason)
    ensures |Victims(rows, Eviction(cls, limit, None, reason))| == Min(limit, CountOf(rows, cls))
  {
    FirstOfCount(rows, cls, limit);
  }

  lemma OtherClassUntouched(rows: seq<Row>, e: Eviction, cls: Class)
    requires DistinctIds(rows) && cls != e.cls
    ensures CountOf(AfterEviction(rows, e), cls) == CountOf(rows, cls)
  {
    VictimsAreRows(rows, e);
    forall row, v | row in rows && v in Victims(rows, e) && row.eventId == v.eventId ensures row.cls != cls {
      SameIdSameRow(rows, row, v);
    }
    OtherClassKept(rows, Victims(rows, e), cls);
  }

  lemma {:induction false} OtherClassKept(rows: seq<Row>, victims: seq<Row>, cls: Class)
    requires forall row, v :: row in rows && v in victims && row.eventId == v.eventId ==> row.cls != cls
    ensures CountOf(Without(rows, Ids(victims)), cls) == CountOf(rows, cls)
  {
    if rows != [] {
      var front, last := rows[..|rows| - 1], rows[|rows| - 1];
      assert rows == front + [last];
      OtherClassKept(front, victims, cls);
      CountLast(Without(front, Ids(victims)), last, cls);
    }
  }

  // ---- The pass settles ---------------------------------------------------------------------------------------

  lemma AgeEvictionsShrink(rows: seq<Row>, plan: seq<Eviction>, cls: Class)
    requires DistinctIds(rows)
    ensures CountOf(AfterEvictions(rows, plan), cls) <= CountOf(rows, cls)
    ensures DistinctIds(AfterEvictions(rows, plan))
  {
    EvictionConserves(rows, plan);
    if plan != [] {
      var front := plan[..|plan| - 1];
      AgeEvictionsShrink(rows, front, cls);
      var before := AfterEvictions(rows, front);
      WithoutCountsLess(before, Ids(Victims(before, plan[|plan| - 1])), cls);
    }
  }

  lemma {:induction false} EvictionsAppend(rows: seq<Row>, plan: seq<Eviction>, more: seq<Eviction>)
    ensures AfterEvictions(rows, plan + more) == AfterEvictions(AfterEvictions(rows, plan), more)
  {
    if more == [] {
      assert plan + more == plan;
    } else {
      assert (plan + more)[..|plan + more| - 1] == plan + more[..|more| - 1];
      EvictionsAppend(rows, plan, more[..|more| - 1]);
    }
  }

  lemma OneEviction(rows: seq<Row>, e: Eviction)
    ensures AfterEvictions(rows, [e]) == AfterEviction(rows, e)
  {
    assert [e][..0] == [];
  }

  /** After the size evictions each class is short by its share, or empty. */
  lemma SizeEvictionsApplied(rows: seq<Row>, census: Census, limits: Limits)
    requires DistinctIds(rows)
    ensures var left := AfterEvictions(rows, SizeEvictions(census, limits));
            && CountOf(left, SampleClass)
               == CountOf(rows, SampleClass) - Min(FromSamples(census, limits), CountOf(rows, SampleClass))
            && CountOf(left, AuditClass)
               == CountOf(rows, AuditClass) - Min(FromAudits(census, limits), CountOf(rows, AuditClass))
  {
    hide AfterEviction, Victims, CountOf, FromSamples, FromAudits;
    var s, a := FromSamples(census, limits), FromAudits(census, limits);
    var samples := if s > 0 then [Eviction(SampleClass, s, None, SampleReason(census, limits))] else [];
    var audits := if a > 0 then [Eviction(AuditClass, a, None, AuditFloor)] else [];
    assert SizeEvictions(census, limits) == samples + audits;
    EvictionsAppend(rows, samples, audits);
    var mid := AfterEvictions(rows, samples);
    if s > 0 {
      OneEviction(rows, samples[0]);
      SizeEvictionCounts(rows, SampleClass, s, SampleReason(census, limits));
      OtherClassUntouched(rows, samples[0], AuditClass);
      EvictionSplits(rows, samples[0]);
    }
    if a > 0 {
      OneEviction(mid, audits[0]);
      SizeEvictionCounts(mid, AuditClass, a, AuditFloor);
      OtherClassUntouched(mid, audits[0], SampleClass);
    }
  }

  /** A pass that fires on the count cap leaves no more than the headroom target. */
  lemma PassReachesTarget(rows: seq<Row>, limits: Limits, now: Instant)
    requires DistinctIds(rows) && |rows| > limits.maxEvents
    ensures |AfterEvictions(rows, PlanOf(CensusOf(rows), limits, now))| <= Max(0, Target(limits.maxEvents))
  {
    hide CountOf, AfterEvictions, AgeEvictions, SizeEvictions, FromSamples, FromAudits;
    var census := CensusOf(rows);
    var aged := AgeEvictions(census, limits, now);
    var after := AfterEvictions(rows, aged);
    EvictionsAppend(rows, aged, SizeEvictions(census, limits));
    AgeEvictionsShrink(rows, aged, SampleClass);
    AgeEvictionsShrink(rows, aged, AuditClass);
    SizeEvictionsApplied(after, census, limits);
    CountsAddUp(rows);
    CountsAddUp(AfterEvictions(after, SizeEvictions(census, limits)));
    SharesCoverCount(census, limits);
  }

  function Bytes(rows: seq<Row>): nat {
    CensusOf(rows).TotalBytes()
  }

  /** No row has outlived its class's age bound. */
  predicate NoneAged(rows: seq<Row>, limits: Limits, now: Instant) {
    forall row :: row in rows ==>
      now - row.queuedAt <= (if row.cls.SampleClass? then limits.maxAgeDays else limits.auditRetentionDays) * DAY
  }

  lemma {:induction false} OldestIsARow(rows: seq<Row>, cls: Class)
    ensures OldestOf(rows, cls).Some? ==>
              exists row :: row in rows && row.cls == cls && row.queuedAt == OldestOf(rows, cls).value
  {
    if rows != [] {
      var front, last := rows[..|rows| - 1], rows[|rows| - 1];
      OldestIsARow(front, cls);
      assert rows == front + [last];
    }
  }

  lemma NoneAgedNoAgeEviction(rows: seq<Row>, limits: Limits, now: Instant)
    requires NoneAged(rows, limits, now)
    ensures AgeEvictions(CensusOf(rows), limits, now) == []
  {
    OldestIsARow(rows, SampleClass);
    OldestIsARow(rows, AuditClass);
  }

  /**
    Nor does a pass overdo it. With no row past its age and the bytes within 95 % of their cap, a
    queue over the count cap is left with 95 % of it, to the row; within both caps with all of itself.
   */
  lemma PassLeavesExactly(rows: seq<Row>, limits: Limits, now: Instant)
    requires DistinctIds(rows) && NoneAged(rows, limits, now)
    ensures var left, size := AfterEvictions(rows, PlanOf(CensusOf(rows), limits, now)), Bytes(rows);
            && (|rows| <= limits.maxEvents && size <= limits.maxBytes ==> left == rows)
            && (0 <= limits.maxEvents < |rows| && 0 <= limits.maxBytes && 100 * size <= 95 * limits.maxBytes ==>
                  100 * |left| <= 95 * limits.maxEvents < 100 * |left| + 100)
  {
    hide CountOf, BytesOf, OldestOf, AfterEvictions, AgeEvictions, SizeEvictions, Target;
    var census := CensusOf(rows);
    NoneAgedNoAgeEviction(rows, limits, now);
    CountsAddUp(rows);
    TargetIs95Percent(limits.maxEvents);
    TargetIs95Percent(limits.maxBytes);
    assert PlanOf(census, limits, now) == SizeEvictions(census, limits);
    if |rows| <= limits.maxEvents && Bytes(rows) <= limits.maxBytes {
      NothingOver(rows, limits);
    }
    if 0 <= limits.maxEvents < |rows| && 0 <= limits.maxBytes && 100 * Bytes(rows) <= 95 * limits.maxBytes {
      SizeEvictionsApplied(rows, census, limits);
      CountsAddUp(AfterEvictions(rows, SizeEvictions(census, limits)));
      SharesOfTheOverrun(census, limits);
    }
  }

  lemma NothingOver(rows: seq<Row>, limits: Limits)
    requires !OverCap(CensusOf(rows), limits)
    ensures AfterEvictions(rows, SizeEvictions(CensusOf(rows), limits)) == rows
  {
    hide CensusOf;
  }

  /** The sync daemon's pass: evict by plan, and enqueue one receipt if anything went. */
  function AfterPass(rows: seq<Row>, limits: Limits, now: Instant, receipt: Row): seq<Row> {
    var plan := PlanOf(CensusOf(rows), limits, now);
    if AllVictims(rows, plan) == [] then AfterEvictions(rows, plan)
    else Enqueued(AfterEvictions(rows, plan), [receipt])
  }

  method ApplyEviction(queue: Store, limits: Limits, now: Instant, receipt: Row) returns (evicted: nat)
    requires queue.Valid()
    modifies queue
    ensures queue.Valid()
    ensures queue.rows == AfterPass(old(queue.rows), limits, now, receipt)
    ensures evicted == |AllVictims(old(queue.rows), PlanOf(CensusOf(old(queue.rows)), limits, now))|
  {
    var census := queue.TakeCensus();
    var plan := Plan(census, limits, now);
    evicted := queue.Evict(plan);
    if evicted == 0 {
      return;
    }
    // The receipt.
    var inserted := queue.Enqueue([receipt]);
  }

  /**
    The pass settles on the count cap exactly for caps of at least one: from any queue
    over its cap, the queue after the plan and its one receipt is within the cap again
    if and only if the cap is at least 1. Within the cap it stays there.
   */
  lemma PassSettlesExactly(rows: seq<Row>, limits: Limits, now: Instant, receipt: Row)
    requires DistinctIds(rows) && !HasId(rows, receipt.eventId)
    ensures |rows| > limits.maxEvents ==>
              (|AfterPass(rows, limits, now, receipt)| <= limits.maxEvents <==> limits.maxEvents >= 1)
    ensures |rows| <= limits.maxEvents ==> |AfterPass(rows, limits, now, receipt)| <= limits.maxEvents
  {
    var plan := PlanOf(CensusOf(rows), limits, now);
    EvictionConserves(rows, plan);
    var left := AfterEvictions(rows, plan);
    NothingNew(rows, plan, receipt);
    assert [receipt][..0] == [];
    assert Enqueued(left, [receipt]) == left + [receipt];
    if |rows| > limits.maxEvents {
      PassReachesTarget(rows, limits, now);
    }
  }

  lemma NothingNew(rows: seq<Row>, plan: seq<Eviction>, receipt: Row)
    requires DistinctIds(rows) && !HasId(rows, receipt.eventId)
    ensures !HasId(AfterEvictions(rows, plan), receipt.eventId)
  {
    EvictionConserves(rows, plan);
    var left := AfterEvictions(rows, plan);
    forall row | row in left ensures row in rows {
      assert row in multiset(left) && row in multiset(rows);
    }
  }

  /** Whenever the size caps cost an audit row, no sample is left behind. */
  lemma AuditsGoLast(rows: seq<Row>, limits: Limits, now: Instant)
    requires DistinctIds(rows)
    requires FromAudits(CensusOf(rows), limits) > 0
    ensures CountOf(AfterEvictions(rows, PlanOf(CensusOf(rows), limits, now)), SampleClass) == 0
  {
    var census := CensusOf(rows);
    var aged := AgeEvictions(census, limits, now);
    EvictionsAppend(rows, aged, SizeEvictions(census, limits));
    AgeEvictionsShrink(rows, aged, SampleClass);
    SizeEvictionsApplied(AfterEvictions(rows, aged), census, limits);
    AuditsOnlyAfterEverySample(census, limits);
  }

  // ---- Bytes -----------------------------------------------------------------------------------------------------

  lemma {:induction false} BytesConcat(a: seq<Row>, b: seq<Row>, cls: Class)
    ensures BytesOf(a + b, cls) == BytesOf(a, cls) + BytesOf(b, cls)
  {
    if b == [] {
      assert a + b == a;
    } else {
      assert (a + b)[..|a + b| - 1] == a + b[..|b| - 1];
      BytesConcat(a, b[..|b| - 1], cls);
    }
  }

  lemma BytesWithout(rows: seq<Row>, i: nat, cls: Class)
    requires i < |rows|
    ensures BytesOf(rows, cls)
            == BytesOf(rows[..i] + rows[i + 1..], cls) + (if rows[i].cls == cls then rows[i].bytes else 0)
  {
    var before, after := rows[..i], rows[i + 1..];
    assert rows == before + [rows[i]] + after;
    assert (before + [rows[i]])[..i] == before;
    BytesConcat(before + [rows[i]], after, cls);
    BytesConcat(before, after, cls);
  }

  lemma {:induction false} SameRowsSameBytes(a: seq<Row>, b: seq<Row>, cls: Class)
    requires multiset(a) == multiset(b)
    ensures BytesOf(a, cls) == BytesOf(b, cls)
    decreases |a|
  {
    hide BytesOf;
    assert |a| == |multiset(a)| == |b|;
    if a == [] {
      assert b == [];
    } else {
      var front, last := a[..|a| - 1], a[|a| - 1];
      assert a == front + [last] && last in multiset(b);
      var i :| 0 <= i < |b| && b[i] == last;
      BytesWithout(a, |a| - 1, cls);
      BytesWithout(b, i, cls);
      assert a[..|a| - 1] + a[|a|..] == front;
      var before, after := b[..i], b[i + 1..];
      PickedOut(b, i, front);
      SameRowsSameBytes(front, before + after, cls);
    }
  }

  /** What a plan leaves and what it takes weigh what there was. */
  lemma BytesConserved(rows: seq<Row>, left: seq<Row>, victims: seq<Row>)
    requires multiset(left) + multiset(victims) == multiset(rows)
    ensures Bytes(left) + Bytes(victims) == Bytes(rows)
  {
    hide CountOf, OldestOf, BytesOf;
    assert multiset(left + victims) == multiset(rows);
    SameRowsSameBytes(left + victims, rows, SampleClass);
    SameRowsSameBytes(left + victims, rows, AuditClass);
    BytesConcat(left, victims, SampleClass);
    BytesConcat(left, victims, AuditClass);
  }

  /** The rows but those of the class queued before the cutoff. */
  function Outliving(rows: seq<Row>, cls: Class, cutoff: Instant): seq<Row> {
    if rows == [] then []
    else
      var front, last := Outliving(rows[..|rows| - 1], cls, cutoff), rows[|rows| - 1];
      if last.cls == cls && last.queuedAt < cutoff then front else front + [last]
  }

  /** The rows not past the age bound of their class. */
  function Young(rows: seq<Row>, limits: Limits, now: Instant): seq<Row> {
    Outliving(Outliving(rows, SampleClass, AgedOutBefore(SampleClass, limits, now)),
              AuditClass, AgedOutBefore(AuditClass, limits, now))
  }

  lemma {:induction false} WithoutOld(rows: seq<Row>, ids: set<EventId>, cls: Class, cutoff: Instant)
    requires forall row :: row in rows ==> (row.eventId in ids <==> row.cls == cls && row.queuedAt < cutoff)
    ensures Without(rows, ids) == Outliving(rows, cls, cutoff)
  {
    if rows != [] {
      var front, last := rows[..|rows| - 1], rows[|rows| - 1];
      assert rows == front + [last];
      WithoutOld(front, ids, cls, cutoff);
    }
  }

  lemma AgeEvictionKeeps(rows: seq<Row>, cls: Class, cutoff: Instant, reason: Reason)
    requires DistinctIds(rows)
    ensures AfterEviction(rows, Eviction(cls, 0, Some(cutoff), reason)) == Outliving(rows, cls, cutoff)
    ensures DistinctIds(Outliving(rows, cls, cutoff))
  {
    var e := Eviction(cls, 0, Some(cutoff), reason);
    VictimsAreRows(rows, e);
    EvictionSplits(rows, e);
    forall row | row in rows
      ensures row.eventId in Ids(Victims(rows, e)) <==> row.cls == cls && row.queuedAt < cutoff
    {
      if row.cls == cls && row.queuedAt < cutoff {
        EveryOldRowIsAVictim(rows, cls, cutoff, row);
      }
      if row.eventId in Ids(Victims(rows, e)) {
        var v :| v in Victims(rows, e) && v.eventId == row.eventId;
        SameIdSameRow(rows, row, v);
      }
    }
    WithoutOld(rows, Ids(Victims(rows, e)), cls, cutoff);
  }

  lemma {:induction false} AllOutlive(rows: seq<Row>, cls: Class, cutoff: Instant)
    requires forall row :: row in rows && row.cls == cls ==> row.queuedAt >= cutoff
    ensures Outliving(rows, cls, cutoff) == rows
  {
    if rows != [] {
      var front, last := rows[..|rows| - 1], rows[|rows| - 1];
      assert rows == front + [last];
      AllOutlive(front, cls, cutoff);
    }
  }

  lemma {:induction false} OthersOutlive(rows: seq<Row>, cls: Class, cutoff: Instant)
    ensures forall row :: row in Outliving(rows, cls, cutoff)
              <==> row in rows && !(row.cls == cls && row.queuedAt < cutoff)
  {
    if rows != [] {
      var front, last := rows[..|rows| - 1], rows[|rows| - 1];
      assert rows == front + [last];
      OthersOutlive(front, cls, cutoff);
    }
  }

  /** The age evictions leave exactly the young rows, in order. */
  lemma AgesLeaveTheYoung(rows: seq<Row>, limits: Limits, now: Instant)
    requires DistinctIds(rows)
    ensures AfterEvictions(rows, AgeEvictions(CensusOf(rows), limits, now)) == Young(rows, limits, now)
    ensures DistinctIds(Young(rows, limits, now))
    ensures AgeEvictions(CensusOf(rows), limits, now) == [] ==> Young(rows, limits, now) == rows
  {
    hide AfterEviction, Outliving, CountOf, BytesOf, OldestOf;
    var samples, audits := AgedOutBefore(SampleClass, limits, now), AgedOutBefore(AuditClass, limits, now);
    var census, mid := CensusOf(rows), Outliving(rows, SampleClass, samples);
    AgeEvictionKeeps(rows, SampleClass, samples, MaxAgeDays);
    AgeEvictionKeeps(mid, AuditClass, audits, AuditRetentionDays);
    OldestIsOldest(rows, SampleClass);
    OldestIsOldest(rows, AuditClass);
    OthersOutlive(rows, SampleClass, samples);
    var first := Eviction(SampleClass, 0, Some(samples), MaxAgeDays);
    var second := Eviction(AuditClass, 0, Some(audits), AuditRetentionDays);
    var ofSamples := if census.oldestSampleAt.Some? && census.oldestSampleAt.value < samples then [first] else [];
    var ofAudits := if census.oldestAuditAt.Some? && census.oldestAuditAt.value < audits then [second] else [];
    assert AgeEvictions(census, limits, now) == ofSamples + ofAudits;
    EvictionsAppend(rows, ofSamples, ofAudits);
    OneEviction(rows, first);
    OneEviction(mid, second);
    if ofSamples == [] {
      AllOutlive(rows, SampleClass, samples);
    }
    if ofAudits == [] {
      AllOutlive(mid, AuditClass, audits);
    }
  }

  /** Evicting samples leaves the audits as they were, in order. */
  lemma {:induction false} SameFirst(rows: seq<Row>, ids: set<EventId>, cls: Class, limit: nat)
    requires forall row :: row in rows && row.eventId in ids ==> row.cls != cls
    ensures FirstOf(Without(rows, ids), cls, limit) == FirstOf(rows, cls, limit)
  {
    if rows != [] {
      var front, last := rows[..|rows| - 1], rows[|rows| - 1];
      assert rows == front + [last];
      SameFirst(front, ids, cls, limit);
      assert (Without(front, ids) + [last])[..|Without(front, ids)|] == Without(front, ids);
    }
  }

  lemma {:induction false} FirstOfNone(rows: seq<Row>, cls: Class)
    ensures FirstOf(rows, cls, 0) == []
  {
    if rows != [] {
      FirstOfNone(rows[..|rows| - 1], cls);
    }
  }

  /** Evicting the oldest of a class, or none, takes the weight of those rows off. */
  lemma SizeEvictionBytes(rows: seq<Row>, cls: Class, limit: nat, reason: Reason)
    requires DistinctIds(rows)
    ensures var plan := if limit > 0 then [Eviction(cls, limit, None, reason)] else [];
            var left := AfterEvictions(rows, plan);
            && Bytes(left) == Bytes(rows) - Bytes(FirstOf(rows, cls, limit))
            && DistinctIds(left)
            && left == (if limit > 0 then Without(rows, Ids(FirstOf(rows, cls, limit))) else rows)
            && forall row :: row in FirstOf(rows, cls, limit) ==> row in rows && row.cls == cls
  {
    hide CensusOf;
    var e := Eviction(cls, limit, None, reason);
    VictimsAreRows(rows, e);
    if limit > 0 {
      OneEviction(rows, e);
      EvictionSplits(rows, e);
      BytesConserved(rows, AfterEviction(rows, e), Victims(rows, e));
    } else {
      FirstOfNone(rows, cls);
      NoBytes();
    }
  }

  lemma NoBytes()
    ensures Bytes([]) == 0
  {
  }

  /**
    Whether a pass ends within the byte cap, told from the queue before it: exactly when, of
    the rows young enough to stay, the oldest samples and audits of the plan's shares weigh
    what the young rows are over by. The shares are reckoned from the mean row of each class.
   */
  lemma BytesSettleExactly(rows: seq<Row>, limits: Limits, now: Instant)
    requires DistinctIds(rows)
    ensures var census, young := CensusOf(rows), Young(rows, limits, now);
            var left := AfterEvictions(rows, PlanOf(census, limits, now));
            var samples := Bytes(FirstOf(young, SampleClass, FromSamples(census, limits)));
            var audits := Bytes(FirstOf(young, AuditClass, FromAudits(census, limits)));
            && Bytes(left) == Bytes(young) - samples - audits
            && (Bytes(left) <= limits.maxBytes <==> samples + audits >= Bytes(young) - limits.maxBytes)
            && (AgeEvictions(census, limits, now) == [] ==> young == rows)
  {
    hide CensusOf, Young, FromSamples, FromAudits, AgeEvictions, FirstOf, Without, Bytes, AfterEvictions;
    var census, young := CensusOf(rows), Young(rows, limits, now);
    var s, a := FromSamples(census, limits), FromAudits(census, limits);
    var samples := if s > 0 then [Eviction(SampleClass, s, None, SampleReason(census, limits))] else [];
    var audits := if a > 0 then [Eviction(AuditClass, a, None, AuditFloor)] else [];
    AgesLeaveTheYoung(rows, limits, now);
    EvictionsAppend(rows, AgeEvictions(census, limits, now), samples + audits);
    EvictionsAppend(young, samples, audits);
    SizeEvictionBytes(young, SampleClass, s, SampleReason(census, limits));
    var mid := AfterEvictions(young, samples);
    SizeEvictionBytes(mid, AuditClass, a, AuditFloor);
    if s > 0 {
      OnlySamples(young, FirstOf(young, SampleClass, s));
      SameFirst(young, Ids(FirstOf(young, SampleClass, s)), AuditClass, a);
    }
  }

  lemma OnlySamples(rows: seq<Row>, victims: seq<Row>)
    requires DistinctIds(rows) && forall row :: row in victims ==> row in rows && row.cls.SampleClass?
    ensures forall row :: row in rows && row.eventId in Ids(victims) ==> row.cls != AuditClass
  {
    forall row | row in rows && row.eventId in Ids(victims) ensures row.cls != AuditClass {
      var v :| v in victims && v.eventId == row.eventId;
      SameIdSameRow(rows, row, v);
    }
  }

  predicate AllWeigh(rows: seq<Row>, cls: Class, bytes: nat) {
    forall row :: row in rows && row.cls == cls ==> row.bytes == bytes
  }

  lemma {:induction false} BytesOfAlike(rows: seq<Row>, cls: Class, bytes: nat)
    requires AllWeigh(rows, cls, bytes)
    ensures BytesOf(rows, cls) == CountOf(rows, cls) * bytes
  {
    if rows != [] {
      var front, last := rows[..|rows| - 1], rows[|rows| - 1];
      assert rows == front + [last];
      BytesOfAlike(front, cls, bytes);
      assert (CountOf(front, cls) + 1) * bytes == CountOf(front, cls) * bytes + bytes;
    }
  }

  /** The two shares of a plan over rows alike in each class shed the whole byte overrun, or everything. */
  lemma SharesCoverBytes(census: Census, limits: Limits, sample: nat, audit: nat)
    requires sample > 0 && census.sampleBytes == census.sampleCount * sample
    requires audit > 0 && census.auditBytes == census.auditCount * audit
    requires OverCap(census, limits)
    ensures (census.sampleCount - FromSamples(census, limits)) * sample
            + (census.auditCount - FromAudits(census, limits)) * audit <= Max(0, Target(limits.maxBytes))
  {
    hide Target, FromSamples, FromAudits, OverCap;
    var s, a := FromSamples(census, limits), FromAudits(census, limits);
    SampleShareCovers(census, limits, sample);
    AuditShareCovers(census, limits, sample, audit);
    var u, v := s * sample, a * audit;
    assert (census.sampleCount - s) * sample == census.sampleBytes - u;
    assert (census.auditCount - a) * audit == census.auditBytes - v;
    assert s == census.sampleCount ==> u == census.sampleBytes;
    assert a == census.auditCount ==> v == census.auditBytes;
    if s < census.sampleCount || a < census.auditCount {
      assert v >= 0 && u + v >= OverBytes(census, limits);
    }
  }

  lemma MeanOfAlike(count: nat, bytes: nat)
    requires bytes > 0
    ensures count > 0 ==> Mean(count * bytes, count) == bytes
  {
    if count > 0 {
      var q, r := count * bytes / count, count * bytes % count;
      assert (bytes - q) * count == r < count;
      if bytes > q {
        TimesMonotone(1, bytes - q, count);
      }
    }
  }

  lemma SampleShareCovers(census: Census, limits: Limits, sample: nat)
    requires sample > 0 && census.sampleBytes == census.sampleCount * sample
    ensures var s := FromSamples(census, limits);
            s <= census.sampleCount && (s < census.sampleCount ==> s * sample >= OverBytes(census, limits))
  {
    hide OverBytes, OverCount;
    MeanOfAlike(census.sampleCount, sample);
    var s := FromSamples(census, limits);
    if s < census.sampleCount && OverBytes(census, limits) > 0 {
      CeilDivCovers(OverBytes(census, limits), sample, s);
    }
  }

  lemma AuditShareCovers(census: Census, limits: Limits, sample: nat, audit: nat)
    requires sample > 0 && census.sampleBytes == census.sampleCount * sample
    requires audit > 0 && census.auditBytes == census.auditCount * audit
    ensures var a := FromAudits(census, limits);
            && a <= census.auditCount
            && (a < census.auditCount ==>
                  FromSamples(census, limits) * sample + a * audit >= OverBytes(census, limits))
  {
    hide OverBytes, FromSamples, CountLeft;
    MeanOfAlike(census.sampleCount, sample);
    MeanOfAlike(census.auditCount, audit);
    SampleShareCovers(census, limits, sample);
    var a := FromAudits(census, limits);
    if a < census.auditCount && BytesLeft(census, limits) > 0 {
      CeilDivCovers(BytesLeft(census, limits), audit, a);
    }
  }

  /** When the rows of each class are alike, a pass that fires reaches the byte target too. */
  lemma PassReachesByteTarget(rows: seq<Row>, limits: Limits, now: Instant, sample: nat, audit: nat)
    requires DistinctIds(rows) && OverCap(CensusOf(rows), limits)
    requires sample > 0 && AllWeigh(rows, SampleClass, sample)
    requires audit > 0 && AllWeigh(rows, AuditClass, audit)
    ensures Bytes(AfterEvictions(rows, PlanOf(CensusOf(rows), limits, now))) <= Max(0, Target(limits.maxBytes))
  {
    hide CountOf, BytesOf, AfterEvictions, AgeEvictions, SizeEvictions, FromSamples, FromAudits, OverCap, OldestOf;
    var census := CensusOf(rows);
    var aged := AgeEvictions(census, limits, now);
    var after := AfterEvictions(rows, aged);
    var left := AfterEvictions(after, SizeEvictions(census, limits));
    EvictionsAppend(rows, aged, SizeEvictions(census, limits));
    AgeEvictionsShrink(rows, aged, SampleClass);
    AgeEvictionsShrink(rows, aged, AuditClass);
    SizeEvictionsApplied(after, census, limits);
    BytesOfAlike(rows, SampleClass, sample);
    BytesOfAlike(rows, AuditClass, audit);
    SharesCoverBytes(census, limits, sample, audit);
    forall row | row in left ensures row in rows {
      EvictionsOnlyRemove(rows, PlanOf(census, limits, now), row);
    }
    BytesOfAlike(left, SampleClass, sample);
    BytesOfAlike(left, AuditClass, audit);
    SharesCoverCount(census, limits);
    TimesMonotone(CountOf(left, SampleClass), census.sampleCount - FromSamples(census, limits), sample);
    TimesMonotone(CountOf(left, AuditClass), census.auditCount - FromAudits(census, limits), audit);
  }

  lemma OneRow(row: Row, cls: Class)
    ensures CountOf([row], cls) == (if row.cls == cls then 1 else 0)
    ensures BytesOf([row], cls) == (if row.cls == cls then row.bytes else 0)
    ensures OldestOf([row], cls) == (if row.cls == cls then Some(row.queuedAt) else None)
  {
    assert [row][..0] == [];
  }

  /** Otherwise it may not: a light row ahead of a heavy one is all a pass takes, and the cap fires again. */
  lemma LightRowsFirstFallShort(light: Row, heavy: Row, now: Instant)
    requires light.cls.SampleClass? && light.bytes == 100 && light.queuedAt == now
    requires heavy.cls.SampleClass? && heavy.bytes == 11900 && heavy.queuedAt == now
    requires light.eventId != heavy.eventId
    ensures var limits := Limits(50, 10000, 14, 90);
            var left := AfterEvictions([light, heavy], PlanOf(CensusOf([light, heavy]), limits, now));
            left == [heavy] && Bytes(left) > limits.maxBytes
  {
    var limits := Limits(50, 10000, 14, 90);
    var rows := [light, heavy];
    assert rows[..1] == [light] && [light][..0] == [];
    OneRow(light, SampleClass);
    OneRow(light, AuditClass);
    assert CensusOf(rows) == Census(2, 12000, 0, 0, Some(now), None);
    assert PlanOf(CensusOf(rows), limits, now) == [Eviction(SampleClass, 1, None, MaxBytes)];
    OneEviction(rows, Eviction(SampleClass, 1, None, MaxBytes));
    assert FirstOf([light], SampleClass, 1) == [light];
    assert Victims(rows, Eviction(SampleClass, 1, None, MaxBytes)) == [light];
    assert Ids([light]) == {light.eventId};
    assert Without([light], {light.eventId}) == [];
    assert [heavy][..0] == [];
  }

  /**
    The size shares are reckoned on the queue before anything aged out of it. So where the age
    evictions alone get the rows within 95 % of a count cap they were over, a pass still takes
    young rows, exactly when there is a young sample, or the audits by themselves were over those
    95 % and there is a young audit.
   */
  lemma YoungRowsGoTooExactly(rows: seq<Row>, limits: Limits, now: Instant)
    requires DistinctIds(rows) && 0 <= limits.maxEvents < |rows|
    requires 0 <= limits.maxBytes && 100 * Bytes(rows) <= 95 * limits.maxBytes
    requires 100 * |Young(rows, limits, now)| <= 95 * limits.maxEvents
    ensures var young, left := Young(rows, limits, now), AfterEvictions(rows, PlanOf(CensusOf(rows), limits, now));
            && |left| <= |young|
            && (|left| < |young|
                <==> CountOf(young, SampleClass) > 0
                     || (100 * CountOf(rows, AuditClass) > 95 * limits.maxEvents && CountOf(young, AuditClass) > 0))
  {
    hide CountOf, BytesOf, OldestOf, AfterEvictions, AgeEvictions, SizeEvictions, Target, Young, FromSamples,
         FromAudits;
    var census, young := CensusOf(rows), Young(rows, limits, now);
    AgeEvictionsShrink(rows, AgeEvictions(census, limits, now), SampleClass);
    AgeEvictionsShrink(rows, AgeEvictions(census, limits, now), AuditClass);
    TargetIs95Percent(limits.maxEvents);
    TargetIs95Percent(limits.maxBytes);
    AgesLeaveTheYoung(rows, limits, now);
    EvictionsAppend(rows, AgeEvictions(census, limits, now), SizeEvictions(census, limits));
    SizeEvictionsApplied(young, census, limits);
    CountsAddUp(rows);
    CountsAddUp(young);
    CountsAddUp(AfterEvictions(young, SizeEvictions(census, limits)));
    SharesOfTheOverrun(census, limits);
    assert OverCount(census, limits) == |rows| - Target(limits.maxEvents) > 0;
  }

  /** With no bytes to shed the samples pay for the rows over the target as far as they go, and the audits the rest. */
  lemma SharesOfTheOverrun(census: Census, limits: Limits)
    requires OverBytes(census, limits) == 0
    ensures FromSamples(census, limits) == Min(census.sampleCount, OverCount(census, limits))
    ensures FromAudits(census, limits)
            == Min(census.auditCount, OverCount(census, limits) - FromSamples(census, limits))
  {
  }

  // ---- Age ---------------------------------------------------------------------------------------------------------

  lemma {:induction false} OldestIsOldest(rows: seq<Row>, cls: Class)
    ensures forall row :: row in rows && row.cls == cls ==>
              OldestOf(rows, cls).Some? && OldestOf(rows, cls).value <= row.queuedAt
    ensures OldestOf(rows, cls).Some? ==>
              exists row :: row in rows && row.cls == cls && row.queuedAt == OldestOf(rows, cls).value
  {
    if rows != [] {
      var front, last := rows[..|rows| - 1], rows[|rows| - 1];
      assert rows == front + [last];
      OldestIsOldest(front, cls);
    }
  }

  /** The instant a class's rows must not have been queued before. */
  function AgedOutBefore(cls: Class, limits: Limits, now: Instant): Instant {
    Cutoff(now, if cls.SampleClass? then limits.maxAgeDays else limits.auditRetentionDays)
  }

  lemma {:induction false} EveryOldRowIsAVictim(rows: seq<Row>, cls: Class, cutoff: Instant, row: Row)
    requires row in rows && row.cls == cls && row.queuedAt < cutoff
    ensures row in OlderThan(rows, cls, cutoff)
  {
    var front, last := rows[..|rows| - 1], rows[|rows| - 1];
    assert rows == front + [last];
    if row in front {
      EveryOldRowIsAVictim(front, cls, cutoff, row);
    }
  }

  lemma {:induction false} EvictionsOnlyRemove(rows: seq<Row>, plan: seq<Eviction>, row: Row)
    requires row in AfterEvictions(rows, plan)
    ensures row in rows
  {
    if plan != [] {
      var before := AfterEvictions(rows, plan[..|plan| - 1]);
      WithoutMembers(before, Ids(Victims(before, plan[|plan| - 1])));
      EvictionsOnlyRemove(rows, plan[..|plan| - 1], row);
    }
  }

  /** After a pass no row of either class is past its age. */
  lemma NothingAgedRemains(rows: seq<Row>, limits: Limits, now: Instant, row: Row)
    requires row in AfterEvictions(rows, PlanOf(CensusOf(rows), limits, now))
    ensures row.queuedAt >= AgedOutBefore(row.cls, limits, now)
  {
    hide CensusOf, SizeEvictions, AgeEvictions;
    var plan := PlanOf(CensusOf(rows), limits, now);
    EvictionsOnlyRemove(rows, plan, row);
    if row.queuedAt < AgedOutBefore(row.cls, limits, now) {
      var i := AgedClassIsEvicted(rows, limits, now, row);
      assert plan[i] == AgeEvictions(CensusOf(rows), limits, now)[i];
      GoneAfter(rows, plan, i, row);
    }
  }

  /** A class holding an aged-out row has its age eviction in the plan. */
  lemma AgedClassIsEvicted(rows: seq<Row>, limits: Limits, now: Instant, row: Row) returns (i: nat)
    requires row in rows
    requires row.queuedAt < AgedOutBefore(row.cls, limits, now)
    ensures var aged := AgeEvictions(CensusOf(rows), limits, now);
            && i < |aged| && aged[i].cls == row.cls
            && aged[i].olderThan.Some? && row.queuedAt < aged[i].olderThan.value
  {
    OldestIsOldest(rows, row.cls);
    i := if row.cls.SampleClass? then 0 else |AgeEvictions(CensusOf(rows), limits, now)| - 1;
  }

  lemma {:induction false} GoneAfter(rows: seq<Row>, plan: seq<Eviction>, i: nat, row: Row)
    requires i < |plan| && row.cls == plan[i].cls
    requires plan[i].olderThan.Some? && row.queuedAt < plan[i].olderThan.value
    ensures row !in AfterEvictions(rows, plan)
  {
    var front, last := plan[..|plan| - 1], plan[|plan| - 1];
    var before := AfterEvictions(rows, front);
    WithoutMembers(before, Ids(Victims(before, last)));
    if i == |plan| - 1 {
      if row in before {
        EveryOldRowIsAVictim(before, row.cls, last.olderThan.value, row);
        assert row.eventId in Ids(Victims(before, last));
      }
    } else {
      GoneAfter(rows, front, i, row);
    }
  }

  /**
    Rows are stamped by the wall and aged by the trusted clock. A row queued while the wall
    stands further back than its class's age bound is lost to the very next pass, whatever
    else is queued; any other row outlives the pass's age evictions.
   */
  lemma SetBackWallLosesNewRowsExactly(rows: seq<Row>, limits: Limits, now: Instant, row: Row)
    requires DistinctIds(rows) && !HasId(rows, row.eventId)
    ensures var queue := Enqueued(rows, [row]);
            && row in queue
            && (row in AfterEvictions(queue, AgeEvictions(CensusOf(queue), limits, now))
                <==> row.queuedAt >= AgedOutBefore(row.cls, limits, now))
            && (row.queuedAt < AgedOutBefore(row.cls, limits, now) ==>
                  row in AllVictims(queue, PlanOf(CensusOf(queue), limits, now)))
  {
    hide CensusOf, AgedOutBefore;
    var queue := Enqueued(rows, [row]);
    assert [row][..0] == [] && Enqueued(rows, []) == rows;
    assert queue == rows + [row];
    NewRowKeepsDistinct(rows, row);
    AgedExactly(queue, limits, now, row);
    if row.queuedAt < AgedOutBefore(row.cls, limits, now) {
      var plan := PlanOf(CensusOf(queue), limits, now);
      hide PlanOf, AfterEvictions, AllVictims;
      assert row !in AfterEvictions(queue, plan) by {
        if row in AfterEvictions(queue, plan) {
          NothingAgedRemains(queue, limits, now, row);
        }
      }
      EvictionConserves(queue, plan);
      assert row in multiset(queue);
      assert row in multiset(AfterEvictions(queue, plan)) || row in multiset(AllVictims(queue, plan));
    }
  }

  lemma NewRowKeepsDistinct(rows: seq<Row>, row: Row)
    requires DistinctIds(rows) && !HasId(rows, row.eventId)
    ensures DistinctIds(rows + [row])
  {
    forall i | 0 <= i < |rows| ensures rows[i].eventId != row.eventId {
      assert rows[i] in rows;
    }
  }

  lemma AgedExactly(rows: seq<Row>, limits: Limits, now: Instant, row: Row)
    requires DistinctIds(rows) && row in rows
    ensures row in AfterEvictions(rows, AgeEvictions(CensusOf(rows), limits, now))
            <==> row.queuedAt >= AgedOutBefore(row.cls, limits, now)
  {
    hide CensusOf;
    var plan := AgeEvictions(CensusOf(rows), limits, now);
    if row.queuedAt < AgedOutBefore(row.cls, limits, now) {
      var i := AgedClassIsEvicted(rows, limits, now, row);
      GoneAfter(rows, plan, i, row);
    } else {
      StaysThrough(rows, plan, row);
    }
  }

  lemma {:induction false} StaysThrough(rows: seq<Row>, plan: seq<Eviction>, row: Row)
    requires DistinctIds(rows) && row in rows
    requires forall i :: 0 <= i < |plan| ==>
               plan[i].olderThan.Some? && (plan[i].cls == row.cls ==> row.queuedAt >= plan[i].olderThan.value)
    ensures row in AfterEvictions(rows, plan)
  {
    if plan != [] {
      var front, last := plan[..|plan| - 1], plan[|plan| - 1];
      StaysThrough(rows, front, row);
      EvictionConserves(rows, front);
      var before := AfterEvictions(rows, front);
      VictimsAreRows(before, last);
      WithoutMembers(before, Ids(Victims(before, last)));
      if row.eventId in Ids(Victims(before, last)) {
        var v :| v in Victims(before, last) && v.eventId == row.eventId;
        SameIdSameRow(before, row, v);
      }
    }
  }
}
