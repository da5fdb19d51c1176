/**
  The version log of one device: a new version when the compiled content changed, and
  nothing at all when it did not.
 */
module Publish {
  import opened Basics
  import opened PolicyDocument
  import Compile
  import Recompile
  import RowOrder
  import Restriction

  /** The document as published. `settings` stands for the policy set's pass-through fields. */
  datatype Envelope = Envelope(
    policyVersion: nat,
    issuedAt: Instant,
    notBefore: Instant,
    deviceId: Id,
    settings: Id,
    document: Document)

  /**
    What the hash covers: everything but the three fields that change on every compile.
    The digest of the canonical form is taken as injective, so the content stands for it.
   */
  datatype Content = Content(deviceId: Id, settings: Id, document: Document)

  function ContentHash(e: Envelope): Content {
    Content(e.deviceId, e.settings, e.document)
  }

  datatype Etag = Etag(hash: Content, version: nat)

  datatype Row = Row(version: nat, document: Envelope, hash: Content, etag: Etag, issuedAt: Instant)

  datatype Outcome = Unchanged(version: nat, etag: Etag) | Published(version: nat, etag: Etag, hash: Content)

  /** The row with the greatest version. */
  function Latest(rows: seq<Row>): (r: Option<Row>)
    ensures r.None? <==> rows == []
    ensures r.Some? ==> r.value in rows && forall row :: row in rows ==> row.version <= r.value.version
  {
    if rows == [] then None
    else
      var best, row := Latest(rows[..|rows| - 1]), rows[|rows| - 1];
      assert rows == rows[..|rows| - 1] + [row];
      if best.None? || row.version > best.value.version then Some(row) else best
  }

  function NextVersion(rows: seq<Row>): nat {
    if Latest(rows).Some? then Latest(rows).value.version + 1 else 1
  }

  function RowFor(rows: seq<Row>, e: Envelope): Row {
    Row(NextVersion(rows), e, ContentHash(e), Etag(ContentHash(e), NextVersion(rows)), e.issuedAt)
  }

  /** The log after publishing a document, as a function. */
  function PublishedLog(rows: seq<Row>, e: Envelope): seq<Row> {
    if Latest(rows).Some? && Latest(rows).value.hash == ContentHash(e) then rows else rows + [RowFor(rows, e)]
  }

  /** What one publish gathers. */
  datatype Gathered = Gathered(deviceId: Id, settings: Id, input: Compile.Input)

  function DocumentOf(
      idBefore: (OverrideId, OverrideId) -> bool, zone: Restriction.ServerZone, rows: seq<Row>, g: Gathered): Envelope
  {
    Envelope(NextVersion(rows), g.input.now, g.input.now, g.deviceId, g.settings,
             Compile.Compiled(idBefore, zone, g.input))
  }

  class PolicyLog {
    var rows: seq<Row>

    constructor ()
      ensures rows == []
    {
      rows := [];
    }

    /** Serialised per device by a row lock, so the read and the insert are one step. */
    method Publish(idBefore: (OverrideId, OverrideId) -> bool, zone: Restriction.ServerZone, g: Gathered)
      returns (outcome: Outcome)
      modifies this
      ensures var e := DocumentOf(idBefore, zone, old(rows), g);
              && rows == PublishedLog(old(rows), e)
              && (if rows == old(rows)
                  then outcome == Unchanged(Latest(rows).value.version, Latest(rows).value.etag)
                  else outcome == Published(NextVersion(old(rows)), RowFor(old(rows), e).etag, ContentHash(e)))
    {
      var document := DocumentOf(idBefore, zone, rows, g);
      var hash := ContentHash(document);
      var current := Latest(rows);
      if current.Some? && current.value.hash == hash {
        return Unchanged(current.value.version, current.value.etag);
      }
      var version := (if current.Some? then current.value.version else 0) + 1;
      var etag := Etag(hash, version);
      rows := rows + [Row(version, document, hash, etag, g.input.now)];
      outcome := Published(version, etag, hash);
    }
  }

  // ---- The log ----------------------------------------------------------------------------------

  /** Versions run 1, 2, 3 and each differs in content from the one before. */
  predicate LogOk(rows: seq<Row>) {
    && (forall i :: 0 <= i < |rows| ==> rows[i].version == i + 1 && rows[i].hash == ContentHash(rows[i].document))
    && (forall i :: 0 < i < |rows| ==> rows[i].hash != rows[i - 1].hash)
  }

  lemma LatestIsLast(rows: seq<Row>)
    requires LogOk(rows)
    ensures rows != [] ==> Latest(rows) == Some(rows[|rows| - 1])
    ensures NextVersion(rows) == |rows| + 1
  {
    if rows != [] {
      var last := rows[|rows| - 1];
      assert last in rows;
      var i :| 0 <= i < |rows| && rows[i] == Latest(rows).value;
    }
  }

  /** Publishing appends at most one row, and only a changed one. */
  lemma PublishKeepsLog(rows: seq<Row>, e: Envelope)
    requires LogOk(rows)
    ensures LogOk(PublishedLog(rows, e))
    ensures PublishedLog(rows, e) == rows || PublishedLog(rows, e) == rows + [RowFor(rows, e)]
    ensures rows == PublishedLog(rows, e) <==> rows != [] && rows[|rows| - 1].hash == ContentHash(e)
    ensures Latest(PublishedLog(rows, e)).Some? && Latest(PublishedLog(rows, e)).value.hash == ContentHash(e)
  {
    LatestIsLast(rows);
    var next := PublishedLog(rows, e);
    if next != rows {
      assert next[|next| - 1] == RowFor(rows, e);
    }
    LatestIsLast(next);
  }

  /**
    A publish adds nothing exactly when the latest document is for the same device, with the same
    settings, and compiles to the same schedule and overrides; otherwise it adds a row that says
    so throughout: the next number on the row, in the document and in the etag, one hash, and the
    instant of the publish.
   */
  lemma PublishesExactly(
      idBefore: (OverrideId, OverrideId) -> bool, zone: Restriction.ServerZone, rows: seq<Row>, g: Gathered)
    requires LogOk(rows)
    ensures var next, compiled := PublishedLog(rows, DocumentOf(idBefore, zone, rows, g)),
                                  Compile.Compiled(idBefore, zone, g.input);
            && (next == rows <==>
                  rows != [] && var latest := rows[|rows| - 1].document;
                                latest.deviceId == g.deviceId && latest.settings == g.settings
                                && latest.document == compiled)
            && (next != rows ==>
                  && |next| == |rows| + 1 && next[..|rows|] == rows
                  && var row := next[|rows|];
                     && row.version == row.document.policyVersion == row.etag.version == |rows| + 1
                     && row.etag.hash == row.hash
                     && row.issuedAt == row.document.issuedAt == row.document.notBefore == g.input.now
                     && row.document.deviceId == g.deviceId && row.document.settings == g.settings
                     && row.document.document == compiled)
  {
    hide Compile.Compiled;
    LatestIsLast(rows);
    PublishKeepsLog(rows, DocumentOf(idBefore, zone, rows, g));
  }

  function PublishAll(rows: seq<Row>, documents: seq<Envelope>): seq<Row> {
    if documents == [] then rows
    else PublishedLog(PublishAll(rows, documents[..|documents| - 1]), documents[|documents| - 1])
  }

  /** The contents with each repeat of the one just before it left out. */
  function Changes(documents: seq<Envelope>): seq<Content> {
    if documents == [] then []
    else
      var front, c := Changes(documents[..|documents| - 1]), ContentHash(documents[|documents| - 1]);
      if front != [] && front[|front| - 1] == c then front else front + [c]
  }

  function Hashes(rows: seq<Row>): seq<Content> {
    seq(|rows|, i requires 0 <= i < |rows| => rows[i].hash)
  }

  lemma PublishIsAChange(rows: seq<Row>, e: Envelope)
    requires LogOk(rows)
    ensures var hashes, c := Hashes(rows), ContentHash(e);
            Hashes(PublishedLog(rows, e))
            == if hashes != [] && hashes[|hashes| - 1] == c then hashes else hashes + [c]
  {
    hide ContentHash, LogOk;
    PublishKeepsLog(rows, e);
    if PublishedLog(rows, e) != rows {
      assert RowFor(rows, e).hash == ContentHash(e);
    }
  }

  /** Over any run of publishes the log is exactly the changes, numbered from 1. */
  lemma {:induction false} LogIsTheChanges(documents: seq<Envelope>)
    ensures LogOk(PublishAll([], documents))
    ensures Hashes(PublishAll([], documents)) == Changes(documents)
  {
    if documents == [] {
      assert Hashes([]) == [];
    } else {
      hide LogOk, PublishedLog, Hashes, ContentHash;
      var front, e := documents[..|documents| - 1], documents[|documents| - 1];
      LogIsTheChanges(front);
      PublishKeepsLog(PublishAll([], front), e);
      PublishIsAChange(PublishAll([], front), e);
    }
  }

  /**
    Publishing again later, from the same rows in any order, publishes nothing exactly when
    no draft still alive expires on the way or is for a date now past, and none is for a date
    the horizon has only now reached. The instants themselves are not in the hash.
   */
  lemma RepublishExactly(
      idBefore: (OverrideId, OverrideId) -> bool, zone: Restriction.ServerZone, rows: seq<Row>, a: Gathered,
      b: Gathered)
    requires LogOk(rows) && RowOrder.TotalOnIds(idBefore)
    requires a.input.now <= b.input.now && zone.dayOf(a.input.now) <= zone.dayOf(b.input.now)
    requires RowOrder.SameRowsAnyOrder(a.input.(now := b.input.now), b.input) && RowOrder.DistinctKeys(a.input)
    requires a.deviceId == b.deviceId && a.settings == b.settings
    ensures var once := PublishedLog(rows, DocumentOf(idBefore, zone, rows, a));
            PublishedLog(once, DocumentOf(idBefore, zone, once, b)) == once
            <==> Recompile.NothingLeaves(zone, a.input, b.input.now)
                 && Recompile.NothingEnters(zone, a.input, b.input.now)
  {
    hide Compile.Compiled, RowOrder.SameRowsAnyOrder, Recompile.NothingLeaves, Recompile.NothingEnters;
    var once := PublishedLog(rows, DocumentOf(idBefore, zone, rows, a));
    RowOrder.CompileIgnoresAllOrder(idBefore, zone, a.input.(now := b.input.now), b.input);
    Recompile.RecompileExactly(idBefore, zone, a.input, b.input.now);
    PublishKeepsLog(rows, DocumentOf(idBefore, zone, rows, a));
    PublishKeepsLog(once, DocumentOf(idBefore, zone, once, b));
    LatestIsLast(once);
  }

  /** Within one local date, an expiry alone publishes: at one and the same instant nothing ever does. */
  lemma ReorderedRowsPublishNothing(
      idBefore: (OverrideId, OverrideId) -> bool, zone: Restriction.ServerZone, rows: seq<Row>, a: Gathered,
      b: Gathered)
    requires LogOk(rows) && RowOrder.TotalOnIds(idBefore)
    requires a.input.now <= b.input.now && zone.dayOf(a.input.now) == zone.dayOf(b.input.now)
    requires RowOrder.SameRowsAnyOrder(a.input.(now := b.input.now), b.input) && RowOrder.DistinctKeys(a.input)
    requires a.deviceId == b.deviceId && a.settings == b.settings
    ensures var once := PublishedLog(rows, DocumentOf(idBefore, zone, rows, a));
            PublishedLog(once, DocumentOf(idBefore, zone, once, b)) == once
            <==> forall o :: o in Compile.Drafts(zone, a.input) ==> !(a.input.now < o.expiresAt <= b.input.now)
  {
    hide Compile.Compiled, Compile.Drafts, RowOrder.SameRowsAnyOrder, Recompile.NothingLeaves, Recompile.NothingEnters;
    RepublishExactly(idBefore, zone, rows, a, b);
    Recompile.RecompileExactly(idBefore, zone, a.input, b.input.now);
    Recompile.RecompileSameDayExactly(idBefore, zone, a.input, b.input.now);
  }

  /** Publishing from all a household's rows is publishing from those that are gathered. */
  lemma GatheredIsEnough(
      idBefore: (OverrideId, OverrideId) -> bool, zone: Restriction.ServerZone, rows: seq<Row>, all: Gathered)
    ensures DocumentOf(idBefore, zone, rows, all.(input := Recompile.GatheredRows(zone, all.input)))
            == DocumentOf(idBefore, zone, rows, all)
  {
    Recompile.GatheringLosesNothing(idBefore, zone, all.input);
  }
}
