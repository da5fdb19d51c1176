/**
  Moving the enforcer's spool into the queue: rename the live file aside, ingest every
  segment, and delete each only once its rows are in the queue.
 */
module SpoolReader {
  import opened Basics
  import opened Sorting
  import opened QueuePolicy
  import opened Events
  import opened Queue

  datatype Segment = Segment(name: SegmentName, lines: seq<Line>)

  /** When a parse runs, and the queue's stamp for what it inserts. */
  datatype Moment = Moment(parsedAt: Instant, queuedAt: Instant)

  function RowOf(line: Line, boot: BootId, name: SegmentName, index: nat, at: Moment): Row
    requires line.event.Some?
  {
    var ts := if line.ts.Some? then line.ts.value else at.parsedAt;
    Row(Derived(ts, boot, name, index, line), line.event.value.cls,
        line.size + |line.event.value.name| + 96, at.queuedAt, line)
  }

  /** A line that does not parse is skipped, and still takes its ordinal. */
  function ParsedText(lines: seq<Line>, boot: BootId, name: SegmentName, at: Moment): seq<Row> {
    if lines == [] then []
    else
      var front, last := ParsedText(lines[..|lines| - 1], boot, name, at), lines[|lines| - 1];
      if last.event.None? then front else front + [RowOf(last, boot, name, |lines| - 1, at)]
  }

  predicate Readable(lines: seq<Line>) {
    forall line :: line in lines ==> line.utf8
  }

  /** The segment is decoded as one string: one line that is not text and none of it is read. */
  function Parsed(lines: seq<Line>, boot: BootId, name: SegmentName, at: Moment): seq<Row> {
    if Readable(lines) then ParsedText(lines, boot, name, at) else []
  }

  method Parse(segment: Segment, boot: BootId, at: Moment) returns (rows: seq<Row>)
    ensures rows == Parsed(segment.lines, boot, segment.name, at)
  {
    rows := [];
    var lines := segment.lines;
    if !Readable(lines) {
      return;
    }
    for i := 0 to |lines|
      invariant rows == ParsedText(lines[..i], boot, segment.name, at)
    {
      assert lines[..i + 1][..i] == lines[..i];
      if lines[i].event.None? { continue; }
      rows := rows + [RowOf(lines[i], boot, segment.name, i, at)];
    }
    assert lines[..|lines|] == lines;
  }

  predicate Exists(segments: seq<Segment>, name: SegmentName) {
    exists s :: s in segments && s.name == name
  }

  function Pending(segments: seq<Segment>): seq<Segment> {
    Sort((a: Segment, b: Segment) => a.name < b.name, segments)
  }

  function Removed(segments: seq<Segment>, name: SegmentName): seq<Segment> {
    if segments == [] then []
    else
      var front, last := Removed(segments[..|segments| - 1], name), segments[|segments| - 1];
      if last.name == name then front else front + [last]
  }

  /** The queue after ingesting these segments in order. */
  function Ingested(rows: seq<Row>, segments: seq<Segment>, boot: BootId, at: Moment): seq<Row> {
    if segments == [] then rows
    else
      var last := segments[|segments| - 1];
      Enqueued(Ingested(rows, segments[..|segments| - 1], boot, at), Parsed(last.lines, boot, last.name, at))
  }

  function RemovedAll(segments: seq<Segment>, done: seq<Segment>): seq<Segment> {
    if done == [] then segments
    else Removed(RemovedAll(segments, done[..|done| - 1]), done[|done| - 1].name)
  }

  class Disk {
    var live: seq<Line>
    var segments: seq<Segment>

    constructor ()
      ensures live == [] && segments == []
    {
      live, segments := [], [];
    }

    /** The enforcer's whole part in this: one append. */
    method Append(line: Line)
      modifies this`live
      ensures live == old(live) + [line]
    {
      live := live + [line];
    }

    /** Nothing to take, or a segment of that name still waiting: leave everything be. */
    method Rotate(stamp: SegmentName)
      modifies this
      ensures if old(live) == [] || Exists(old(segments), stamp)
              then live == old(live) && segments == old(segments)
              else live == [] && segments == old(segments) + [Segment(stamp, old(live))]
    {
      if live == [] {
        return;
      }
      if Exists(segments, stamp) {
        return;
      }
      segments := segments + [Segment(stamp, live)];
      live := [];
    }

    /** Rotate, then ingest every pending segment: enqueue first, delete second. */
    method Drain(queue: Store, boot: BootId, stamp: SegmentName, at: Moment) returns (ingested: nat)
      requires queue.Valid()
      modifies this, queue
      ensures queue.Valid()
      ensures live == if Exists(old(segments), stamp) then old(live) else []
      ensures var taken := old(segments)
                + (if old(live) == [] || Exists(old(segments), stamp) then [] else [Segment(stamp, old(live))]);
              && queue.rows == Ingested(old(queue.rows), Pending(taken), boot, at)
              && segments == RemovedAll(taken, Pending(taken))
      ensures |queue.rows| == |old(queue.rows)| + ingested
    {
      Rotate(stamp);
      ghost var taken := segments;
      assert taken == old(segments)
        + (if old(live) == [] || Exists(old(segments), stamp) then [] else [Segment(stamp, old(live))]);
      var pending := Pending(segments);
      ingested := 0;
      for i := 0 to |pending|
        invariant queue.Valid()
        invariant live == if Exists(old(segments), stamp) then old(live) else []
        invariant queue.rows == Ingested(old(queue.rows), pending[..i], boot, at)
        invariant segments == RemovedAll(taken, pending[..i])
        invariant |queue.rows| == |old(queue.rows)| + ingested
      {
        assert pending[..i + 1][..i] == pending[..i];
        var rows := Parse(pending[i], boot, at);
        var inserted := queue.Enqueue(rows);
        ingested := ingested + inserted;
        segments := Removed(segments, pending[i].name);
      }
      assert pending[..|pending|] == pending;
    }
  }

  // ---- What a parse yields -----------------------------------------------------------------------------------

  predicate Covered(lines: seq<Line>, rows: seq<Row>) {
    forall line :: line in lines && line.event.Some? ==> exists row :: row in rows && row.line == line
  }

  lemma {:induction false} TextIsCovered(lines: seq<Line>, boot: BootId, name: SegmentName, at: Moment)
    ensures Covered(lines, ParsedText(lines, boot, name, at))
  {
    if lines != [] {
      var front, last := lines[..|lines| - 1], lines[|lines| - 1];
      assert lines == front + [last];
      TextIsCovered(front, boot, name, at);
      forall line | line in lines && line.event.Some?
        ensures exists row :: row in ParsedText(lines, boot, name, at) && row.line == line
      {
        if line in front {
          var row :| row in ParsedText(front, boot, name, at) && row.line == line;
          assert row in ParsedText(lines, boot, name, at);
        } else {
          assert RowOf(last, boot, name, |lines| - 1, at) in ParsedText(lines, boot, name, at);
        }
      }
    }
  }

  /** Every line that parses gets its row exactly when the whole segment is text, or had nothing to give. */
  lemma ParsedCoversExactly(lines: seq<Line>, boot: BootId, name: SegmentName, at: Moment)
    ensures Covered(lines, Parsed(lines, boot, name, at))
            <==> Readable(lines) || forall line :: line in lines ==> line.event.None?
  {
    TextIsCovered(lines, boot, name, at);
  }

  /** A parsed row's id names the line it came from. */
  predicate NamesItsLine(row: Row) {
    row.eventId.Derived? ==> row.eventId.line == row.line
  }

  lemma {:induction false} TextIds(lines: seq<Line>, boot: BootId, name: SegmentName, at: Moment)
    ensures forall row :: row in ParsedText(lines, boot, name, at) ==>
              && row.eventId.Derived? && NamesItsLine(row)
              && row.eventId.boot == boot && row.eventId.segment == name && row.eventId.index < |lines|
              && (row.line.ts.Some? ==> row.eventId.ts == row.line.ts.value)
  {
    if lines != [] {
      TextIds(lines[..|lines| - 1], boot, name, at);
    }
  }

  lemma ParsedIds(lines: seq<Line>, boot: BootId, name: SegmentName, at: Moment)
    ensures forall row :: row in Parsed(lines, boot, name, at) ==>
              && row.eventId.Derived? && NamesItsLine(row)
              && row.eventId.boot == boot && row.eventId.segment == name && row.eventId.index < |lines|
              && (row.line.ts.Some? ==> row.eventId.ts == row.line.ts.value)
  {
    TextIds(lines, boot, name, at);
  }

  /** The row of the parseable line at one place of a segment, field by field. */
  predicate IsRowOf(row: Row, lines: seq<Line>, boot: BootId, name: SegmentName, at: Moment, i: nat)
    requires i < |lines|
  {
    && lines[i].event.Some? && row.line == lines[i]
    && row.cls == lines[i].event.value.cls
    && row.bytes == lines[i].size + |lines[i].event.value.name| + 96
    && row.queuedAt == at.queuedAt
    && row.eventId == Derived(if lines[i].ts.Some? then lines[i].ts.value else at.parsedAt, boot, name, i, lines[i])
  }

  predicate HasRow(row: Row, lines: seq<Line>, boot: BootId, name: SegmentName, at: Moment) {
    exists i :: 0 <= i < |lines| && IsRowOf(row, lines, boot, name, at, i)
  }

  lemma {:induction false} TextRowsExactly(
      lines: seq<Line>, boot: BootId, name: SegmentName, at: Moment, row: Row)
    ensures row in ParsedText(lines, boot, name, at) <==> HasRow(row, lines, boot, name, at)
  {
    if lines != [] {
      var n := |lines| - 1;
      var front := lines[..n];
      TextRowsExactly(front, boot, name, at, row);
      assert forall i :: 0 <= i < n ==>
        (IsRowOf(row, front, boot, name, at, i) <==> IsRowOf(row, lines, boot, name, at, i));
      assert HasRow(row, lines, boot, name, at)
        <==> HasRow(row, front, boot, name, at) || IsRowOf(row, lines, boot, name, at, n);
    }
  }

  /**
    A segment's rows are exactly those of its parseable lines, none unless all of it is text: each
    with its line's class and size, its place, and the stamps of the line, or of the parse, and of the insert.
   */
  lemma ParsedRowsExactly(lines: seq<Line>, boot: BootId, name: SegmentName, at: Moment, row: Row)
    ensures row in Parsed(lines, boot, name, at)
            <==> (forall i :: 0 <= i < |lines| ==> lines[i].utf8) && HasRow(row, lines, boot, name, at)
  {
    TextRowsExactly(lines, boot, name, at, row);
    if Readable(lines) {
      assert forall i :: 0 <= i < |lines| ==> lines[i] in lines;
    }
  }

  lemma {:induction false} ParsedAt(lines: seq<Line>, boot: BootId, name: SegmentName, at: Moment, i: nat)
    requires i < |lines| && lines[i].event.Some?
    ensures RowOf(lines[i], boot, name, i, at) in ParsedText(lines, boot, name, at)
  {
    if i < |lines| - 1 {
      var front := lines[..|lines| - 1];
      assert front[i] == lines[i];
      ParsedAt(front, boot, name, at, i);
    }
  }

  /** One parse gives each row its own id. */
  lemma {:induction false} ParsedDistinct(lines: seq<Line>, boot: BootId, name: SegmentName, at: Moment)
    ensures DistinctIds(ParsedText(lines, boot, name, at))
  {
    if lines != [] {
      var front := lines[..|lines| - 1];
      ParsedDistinct(front, boot, name, at);
      TextIds(front, boot, name, at);
      var rows := ParsedText(front, boot, name, at);
      assert forall i :: 0 <= i < |rows| ==> rows[i] in rows;
    }
  }

  predicate AllStamped(lines: seq<Line>) {
    forall line :: line in lines && line.event.Some? ==> line.ts.Some?
  }

  predicate SameNames(a: seq<Row>, b: seq<Row>) {
    |a| == |b| && forall i :: 0 <= i < |a| ==> a[i].eventId == b[i].eventId
  }

  lemma SameNamesNext(a: seq<Row>, b: seq<Row>, r: Row, s: Row)
    requires |a| == |b|
    ensures SameNames(a + [r], b + [s]) <==> SameNames(a, b) && r.eventId == s.eventId
  {
    if SameNames(a + [r], b + [s]) {
      forall i | 0 <= i < |a| ensures a[i].eventId == b[i].eventId {
        assert (a + [r])[i] == a[i] && (b + [s])[i] == b[i];
      }
      assert (a + [r])[|a|] == r && (b + [s])[|a|] == s;
    }
  }

  /**
    Parsing a segment again names the same events exactly when the same process does it and
    every line that parses carries a readable timestamp, or no line parses. A line without a
    timestamp is stamped by the clock, and another process brings another id.
   */
  lemma {:induction false} ReparseNamesTheSame(
      lines: seq<Line>, boot: BootId, other: BootId, name: SegmentName, first: Moment, again: Moment)
    requires first.parsedAt != again.parsedAt
    ensures SameNames(ParsedText(lines, boot, name, first), ParsedText(lines, other, name, again))
            <==> (boot == other && AllStamped(lines)) || forall line :: line in lines ==> line.event.None?
    ensures |ParsedText(lines, boot, name, first)| == |ParsedText(lines, other, name, again)|
    ensures ParsedText(lines, boot, name, first) == [] <==> forall line :: line in lines ==> line.event.None?
  {
    if lines != [] {
      var front, last := lines[..|lines| - 1], lines[|lines| - 1];
      assert lines == front + [last];
      ReparseNamesTheSame(front, boot, other, name, first, again);
      var a, b := ParsedText(lines, boot, name, first), ParsedText(lines, other, name, again);
      var c, d := ParsedText(front, boot, name, first), ParsedText(front, other, name, again);
      if last.event.Some? {
        SameNamesNext(c, d, a[|c|], b[|c|]);
        assert a == c + [a[|c|]] && b == d + [b[|c|]];
        assert a[|c|].eventId == b[|c|].eventId <==> boot == other && last.ts.Some?;
      }
    }
  }

  /** The segments a drain takes are all gone after it. */
  lemma {:induction false} RemovedMembers(segments: seq<Segment>, name: SegmentName)
    ensures forall s :: s in Removed(segments, name) <==> s in segments && s.name != name
  {
    if segments != [] {
      RemovedMembers(segments[..|segments| - 1], name);
      assert segments == segments[..|segments| - 1] + [segments[|segments| - 1]];
    }
  }

  lemma {:induction false} RemovedAllMembers(segments: seq<Segment>, done: seq<Segment>, s: Segment)
    requires s in RemovedAll(segments, done)
    ensures s in segments && s !in done
  {
    if done != [] {
      var front, last := done[..|done| - 1], done[|done| - 1];
      assert done == front + [last];
      RemovedMembers(RemovedAll(segments, front), last.name);
      RemovedAllMembers(segments, front, s);
    }
  }

  lemma DrainLeavesNoSegment(segments: seq<Segment>)
    ensures RemovedAll(segments, Pending(segments)) == []
  {
    SortKeepsRows((a: Segment, b: Segment) => a.name < b.name, segments);
    forall s | s in segments ensures s in Pending(segments) {
      assert s in multiset(segments) && s in multiset(Pending(segments));
    }
    var left := RemovedAll(segments, Pending(segments));
    if left != [] {
      RemovedAllMembers(segments, Pending(segments), left[0]);
    }
  }
}
