/**
  The projector: scan what arrived since the watermark, recompute whole device-hours from
  the events table, advance the watermark to the newest row actually used.
 */
module Projector {
  import opened Basics
  import opened Sorting

  /** Microseconds: the database's precision. A `Date` keeps only `Millis`. */
  type Stamp = int

  const BATCH_LIMIT := 50_000
  const SMALLINT_MAX := 32_767

  datatype Sample = Sample(bundle: string, foregroundS: int, activeS: int)

  /** `sample` is None for every event that is not a usage sample that parses. */
  datatype Event = Event(id: nat, device: nat, ts: Instant, receivedAt: Stamp, sample: Option<Sample>)

  datatype Bucket = Bucket(device: nat, hour: Instant)

  datatype Key = Key(bucket: Bucket, bundle: string)

  datatype Totals = Totals(foregroundS: int, activeS: int, n: nat)

  datatype UsageRow = UsageRow(key: Key, foregroundS: int, activeS: int, sampleCount: nat)

  function Millis(at: Stamp): int {
    at / 1000
  }

  function BucketOf(e: Event): Bucket {
    Bucket(e.device, e.ts / HOUR * HOUR)
  }

  function KeyOf(e: Event): Key
    requires e.sample.Some?
  {
    Key(BucketOf(e), e.sample.value.bundle)
  }

  // ---- The aggregate, from scratch -------------------------------------------------------------------

  function KeysOf(events: seq<Event>): set<Key> {
    set e | e in events && e.sample.Some? :: KeyOf(e)
  }

  function Added(t: Totals, s: Sample): Totals {
    Totals(t.foregroundS + s.foregroundS, t.activeS + s.activeS, t.n + 1)
  }

  predicate Feeds(e: Event, key: Key) {
    e.sample.Some? && KeyOf(e) == key
  }

  function TotalsOf(events: seq<Event>, key: Key): Totals {
    if events == [] then Totals(0, 0, 0)
    else
      var front, last := TotalsOf(events[..|events| - 1], key), events[|events| - 1];
      if Feeds(last, key) then Added(front, last.sample.value) else front
  }

  function RowFor(key: Key, t: Totals): UsageRow {
    UsageRow(key, t.foregroundS, t.activeS, Min(t.n, SMALLINT_MAX))
  }

  /** What the table should hold: one row a device-hour-bundle, over every event there is. */
  function FromScratch(events: seq<Event>): set<UsageRow> {
    set key | key in KeysOf(events) :: RowFor(key, TotalsOf(events, key))
  }

  function InBucket(usage: set<UsageRow>, bucket: Bucket): set<UsageRow> {
    set row | row in usage && row.key.bucket == bucket
  }

  // ---- One bucket ------------------------------------------------------------------------------------

  /** The query's rows: of the device, from the hour up to the next. */
  function EventsIn(events: seq<Event>, bucket: Bucket): seq<Event> {
    if events == [] then []
    else
      var front, last := EventsIn(events[..|events| - 1], bucket), events[|events| - 1];
      if last.device == bucket.device && bucket.hour <= last.ts < bucket.hour + HOUR then front + [last] else front
  }

  function Recomputed(usage: set<UsageRow>, events: seq<Event>, bucket: Bucket): set<UsageRow> {
    usage - InBucket(usage, bucket) + InBucket(FromScratch(events), bucket)
  }

  function RecomputedAll(usage: set<UsageRow>, events: seq<Event>, buckets: seq<Bucket>): set<UsageRow> {
    if buckets == [] then usage
    else
      Recomputed(RecomputedAll(usage, events, buckets[..|buckets| - 1]), events, buckets[|buckets| - 1])
  }

  /** Truncating to the hour is finding the hour whose span holds the timestamp. */
  lemma BucketExactly(e: Event, device: nat, hour: Instant)
    ensures BucketOf(e) == Bucket(device, hour)
            <==> e.device == device && hour % HOUR == 0 && hour <= e.ts < hour + HOUR
  {
  }

  lemma {:induction false} BucketHoldsItsTotals(events: seq<Event>, key: Key)
    requires key.bucket.hour % HOUR == 0
    ensures TotalsOf(EventsIn(events, key.bucket), key) == TotalsOf(events, key)
    ensures key in KeysOf(EventsIn(events, key.bucket)) <==> key in KeysOf(events)
  {
    if events != [] {
      var front, last := events[..|events| - 1], events[|events| - 1];
      BucketHoldsItsTotals(front, key);
      assert events == front + [last];
      KeysGrow(front, last, key);
      BucketExactly(last, key.bucket.device, key.bucket.hour);
      hide BucketOf;
      if BucketOf(last) == key.bucket {
        assert EventsIn(events, key.bucket)[..|EventsIn(front, key.bucket)|] == EventsIn(front, key.bucket);
        KeysGrow(EventsIn(front, key.bucket), last, key);
      }
    }
  }

  lemma KeysGrow(events: seq<Event>, last: Event, key: Key)
    ensures key in KeysOf(events + [last]) <==> key in KeysOf(events) || Feeds(last, key)
  {
    if key in KeysOf(events) {
      var e :| e in events && e.sample.Some? && KeyOf(e) == key;
      assert e in events + [last];
    }
    assert last in events + [last];
  }

  lemma {:induction false} OnlyInBucket(events: seq<Event>, bucket: Bucket)
    requires bucket.hour % HOUR == 0
    ensures forall e :: e in EventsIn(events, bucket) <==> e in events && BucketOf(e) == bucket
  {
    if events != [] {
      hide BucketOf;
      OnlyInBucket(events[..|events| - 1], bucket);
      BucketExactly(events[|events| - 1], bucket.device, bucket.hour);
      assert events == events[..|events| - 1] + [events[|events| - 1]];
    }
  }

  // ---- The scan --------------------------------------------------------------------------------------

  function After(events: seq<Event>, from: Stamp): seq<Event> {
    if events == [] then []
    else
      var front, last := After(events[..|events| - 1], from), events[|events| - 1];
      if last.receivedAt > from then front + [last] else front
  }

  function Ordered(events: seq<Event>): seq<Event> {
    Sort((a: Event, b: Event) => a.receivedAt < b.receivedAt, events)
  }

  function Scanned(events: seq<Event>, from: Stamp): seq<Event> {
    var all := Ordered(After(events, from));
    all[..Min(BATCH_LIMIT, |all|)]
  }

  function NotAt(rows: seq<Event>, millis: int): seq<Event> {
    if rows == [] then []
    else
      var front, last := NotAt(rows[..|rows| - 1], millis), rows[|rows| - 1];
      if Millis(last.receivedAt) != millis then front + [last] else front
  }

  /** A full batch may have cut its last timestamp group: leave that group, unless it is all there is. */
  function Usable(scanned: seq<Event>): seq<Event> {
    if |scanned| < BATCH_LIMIT then scanned
    else
      var whole := NotAt(scanned, Millis(scanned[|scanned| - 1].receivedAt));
      if whole == [] then scanned else whole
  }

  /** The dirty buckets, each once, in the order first seen. */
  function Dirty(rows: seq<Event>): seq<Bucket> {
    if rows == [] then []
    else
      var front, last := Dirty(rows[..|rows| - 1]), BucketOf(rows[|rows| - 1]);
      if last in front then front else front + [last]
  }

  lemma {:induction false} DirtyAreHours(rows: seq<Event>)
    ensures forall b :: b in Dirty(rows) ==> b.hour % HOUR == 0
  {
    if rows != [] {
      DirtyAreHours(rows[..|rows| - 1]);
      var bucket := BucketOf(rows[|rows| - 1]);
      BucketExactly(rows[|rows| - 1], bucket.device, bucket.hour);
    }
  }

  /** One pass over a bucket's rows, accumulating per bundle. */
  method PerBundle(rows: seq<Event>, bucket: Bucket) returns (perBundle: map<string, Totals>)
    requires forall e :: e in rows ==> BucketOf(e) == bucket
    ensures Accumulated(perBundle, rows, bucket)
  {
    hide TotalsOf, KeysOf;
    perBundle := map[];
    NothingYet(bucket);
    for i := 0 to |rows|
      invariant Accumulated(perBundle, rows[..i], bucket)
    {
      var row := rows[i];
      assert row in rows && rows[..i + 1] == rows[..i] + [row];
      if row.sample.None? {
        Passed(perBundle, rows[..i], row, bucket);
        continue;
      }
      var d := row.sample.value;
      var acc := if d.bundle in perBundle then perBundle[d.bundle] else Totals(0, 0, 0);
      Counted(perBundle, rows[..i], row, bucket);
      perBundle := perBundle[d.bundle := Added(acc, d)];
    }
    assert rows[..|rows|] == rows;
  }

  ghost predicate Accumulated(perBundle: map<string, Totals>, rows: seq<Event>, bucket: Bucket) {
    && (forall b :: b in perBundle <==> Key(bucket, b) in KeysOf(rows))
    && (forall b :: b in perBundle ==> perBundle[b] == TotalsOf(rows, Key(bucket, b)))
  }

  method DirtyBuckets(usable: seq<Event>) returns (dirty: seq<Bucket>)
    ensures dirty == Dirty(usable)
  {
    dirty := [];
    for i := 0 to |usable|
      invariant dirty == Dirty(usable[..i])
    {
      assert usable[..i + 1][..i] == usable[..i];
      var bucket := BucketOf(usable[i]);
      if bucket !in dirty {
        dirty := dirty + [bucket];
      }
    }
    assert usable[..|usable|] == usable;
  }

  class Database {
    var events: seq<Event>
    var usage: set<UsageRow>
    var watermark: Stamp

    constructor ()
      ensures events == [] && usage == {} && watermark == 0
    {
      events, usage, watermark := [], {}, 0;
    }

    /** Everything one device-hour produces, recomputed: delete, then insert. A pass asks for whole hours only. */
    method RecomputeBucket(bucket: Bucket) returns (usageRows: nat)
      requires bucket.hour % HOUR == 0
      modifies this`usage
      ensures usage == Recomputed(old(usage), events, bucket)
      ensures usageRows == |InBucket(FromScratch(events), bucket)|
    {
      hide FromScratch, TotalsOf, KeysOf;
      OnlyInBucket(events, bucket);
      var perBundle := PerBundle(EventsIn(events, bucket), bucket);
      usage := usage - InBucket(usage, bucket);
      var rebuilt := set b | b in perBundle :: RowFor(Key(bucket, b), perBundle[b]);
      RebuiltExactly(events, bucket, perBundle, rebuilt);
      usage := usage + rebuilt;
      usageRows := |rebuilt|;
    }

    /** One pass. The nightly pass gives `since` and leaves the watermark alone. */
    method ProjectEvents(since: Option<Stamp>, advance: bool) returns (scanned: nat, dirtyBuckets: nat)
      modifies this`usage, this`watermark
      ensures var usable := UsableFrom(events, if since.Some? then since.value else old(watermark));
              && usage == RecomputedAll(old(usage), events, Dirty(usable))
              && watermark == (if advance && usable != [] then Newest(usable) else old(watermark))
              && scanned == |usable| && dirtyBuckets == |Dirty(usable)|
    {
      hide Scanned, Usable, Recomputed;
      var rows := Scanned(events, if since.Some? then since.value else watermark);
      NothingUsable(rows);
      if rows == [] {
        return 0, 0;
      }
      var usable := Usable(rows);
      var dirty := DirtyBuckets(usable);
      DirtyAreHours(usable);
      for i := 0 to |dirty|
        invariant usage == RecomputedAll(old(usage), events, dirty[..i])
        invariant watermark == old(watermark)
      {
        assert dirty[..i + 1][..i] == dirty[..i];
        var _ := RecomputeBucket(dirty[i]);
      }
      assert dirty[..|dirty|] == dirty;
      if advance {
        watermark := Newest(usable);
      }
      scanned, dirtyBuckets := |usable|, |dirty|;
    }
  }

  lemma NothingYet(bucket: Bucket)
    ensures Accumulated(map[], [], bucket)
  {
  }

  lemma Passed(perBundle: map<string, Totals>, rows: seq<Event>, row: Event, bucket: Bucket)
    requires Accumulated(perBundle, rows, bucket) && row.sample.None?
    ensures Accumulated(perBundle, rows + [row], bucket)
  {
    forall b ensures Key(bucket, b) in KeysOf(rows + [row]) <==> Key(bucket, b) in KeysOf(rows) {
      KeysGrow(rows, row, Key(bucket, b));
    }
    assert (rows + [row])[..|rows|] == rows;
  }

  lemma Counted(perBundle: map<string, Totals>, rows: seq<Event>, row: Event, bucket: Bucket)
    requires Accumulated(perBundle, rows, bucket) && row.sample.Some? && BucketOf(row) == bucket
    ensures var d := row.sample.value;
            var acc := if d.bundle in perBundle then perBundle[d.bundle] else Totals(0, 0, 0);
            Accumulated(perBundle[d.bundle := Added(acc, d)], rows + [row], bucket)
  {
    var d := row.sample.value;
    forall b ensures Key(bucket, b) in KeysOf(rows + [row]) <==> Key(bucket, b) in KeysOf(rows) || b == d.bundle {
      KeysGrow(rows, row, Key(bucket, b));
    }
    if d.bundle !in perBundle {
      NoKeyNoTotals(rows, Key(bucket, d.bundle));
    }
    assert (rows + [row])[..|rows|] == rows;
  }

  function Newest(usable: seq<Event>): Stamp
    requires usable != []
  {
    usable[|usable| - 1].receivedAt
  }

  function UsableFrom(events: seq<Event>, from: Stamp): seq<Event> {
    Usable(Scanned(events, from))
  }

  lemma NothingUsable(scanned: seq<Event>)
    ensures Usable(scanned) == [] <==> scanned == []
  {
  }

  lemma {:induction false} NoKeyNoTotals(events: seq<Event>, key: Key)
    requires key !in KeysOf(events)
    ensures TotalsOf(events, key) == Totals(0, 0, 0)
  {
    if events != [] {
      var front, last := events[..|events| - 1], events[|events| - 1];
      assert events == front + [last];
      KeysGrow(front, last, key);
      NoKeyNoTotals(front, key);
    }
  }

  lemma RebuiltExactly(events: seq<Event>, bucket: Bucket, perBundle: map<string, Totals>, rebuilt: set<UsageRow>)
    requires bucket.hour % HOUR == 0
    requires forall b :: b in perBundle <==> Key(bucket, b) in KeysOf(EventsIn(events, bucket))
    requires forall b :: b in perBundle ==> perBundle[b] == TotalsOf(EventsIn(events, bucket), Key(bucket, b))
    requires rebuilt == set b | b in perBundle :: RowFor(Key(bucket, b), perBundle[b])
    ensures rebuilt == InBucket(FromScratch(events), bucket)
  {
    forall row ensures row in rebuilt <==> row in InBucket(FromScratch(events), bucket) {
      BucketHoldsItsTotals(events, Key(bucket, row.key.bundle));
    }
  }

  // ---- What the table says ------------------------------------------------------------------------------

  /** The samples of one program on one device within an hour from `from`, in the order stored. */
  function SamplesOf(events: seq<Event>, device: nat, from: Instant, bundle: string): seq<Sample> {
    if events == [] then []
    else
      var front, e := SamplesOf(events[..|events| - 1], device, from, bundle), events[|events| - 1];
      if e.device == device && e.sample.Some? && e.sample.value.bundle == bundle && from <= e.ts < from + HOUR
      then front + [e.sample.value] else front
  }

  function ForegroundOf(samples: seq<Sample>): int {
    if samples == [] then 0 else ForegroundOf(samples[..|samples| - 1]) + samples[|samples| - 1].foregroundS
  }

  function ActiveOf(samples: seq<Sample>): int {
    if samples == [] then 0 else ActiveOf(samples[..|samples| - 1]) + samples[|samples| - 1].activeS
  }

  lemma {:induction false} TotalsAreSums(events: seq<Event>, device: nat, hour: Instant, bundle: string)
    requires hour % HOUR == 0
    ensures var key, samples := Key(Bucket(device, hour), bundle), SamplesOf(events, device, hour, bundle);
            && (key in KeysOf(events) <==> samples != [])
            && TotalsOf(events, key) == Totals(ForegroundOf(samples), ActiveOf(samples), |samples|)
  {
    if events != [] {
      hide BucketOf, KeysOf, Feeds;
      var front, last := events[..|events| - 1], events[|events| - 1];
      TotalsAreSums(front, device, hour, bundle);
      assert events == front + [last];
      KeysGrow(front, last, Key(Bucket(device, hour), bundle));
      FeedsExactly(last, device, hour, bundle);
    } else {
      assert KeysOf(events) == {};
    }
  }

  lemma FeedsExactly(e: Event, device: nat, hour: Instant, bundle: string)
    ensures Feeds(e, Key(Bucket(device, hour), bundle))
            <==> e.device == device && e.sample.Some? && e.sample.value.bundle == bundle
                 && hour % HOUR == 0 && hour <= e.ts < hour + HOUR
  {
    BucketExactly(e, device, hour);
  }

  lemma OffTheHour(events: seq<Event>, device: nat, hour: Instant, bundle: string)
    requires hour % HOUR != 0
    ensures Key(Bucket(device, hour), bundle) !in KeysOf(events)
  {
    hide BucketOf;
    forall e | e in events && e.sample.Some? ensures KeyOf(e) != Key(Bucket(device, hour), bundle) {
      FeedsExactly(e, device, hour, bundle);
    }
  }

  /**
    The table from scratch has a row for a device, an instant and a program exactly when the
    instant begins an hour and the program has samples on the device in that hour; the row is
    the sums of exactly those samples, with their number as far as the column holds.
   */
  lemma FromScratchExactly(events: seq<Event>, device: nat, hour: Instant, bundle: string)
    ensures var key, samples := Key(Bucket(device, hour), bundle), SamplesOf(events, device, hour, bundle);
            && ((exists row :: row in FromScratch(events) && row.key == key) <==> hour % HOUR == 0 && samples != [])
            && (forall row :: row in FromScratch(events) && row.key == key ==>
                  row == UsageRow(key, ForegroundOf(samples), ActiveOf(samples), Min(|samples|, 32_767)))
  {
    hide KeysOf, TotalsOf, SamplesOf, ForegroundOf, ActiveOf;
    var key := Key(Bucket(device, hour), bundle);
    if hour % HOUR == 0 {
      TotalsAreSums(events, device, hour, bundle);
    } else {
      OffTheHour(events, device, hour, bundle);
    }
    if key in KeysOf(events) {
      assert RowFor(key, TotalsOf(events, key)) in FromScratch(events);
    }
  }

  // ---- What the scan covers ----------------------------------------------------------------------------

  lemma {:induction false} AfterMembers(events: seq<Event>, from: Stamp)
    ensures forall e :: e in After(events, from) <==> e in events && e.receivedAt > from
  {
    if events != [] {
      AfterMembers(events[..|events| - 1], from);
      assert events == events[..|events| - 1] + [events[|events| - 1]];
    }
  }

  lemma {:induction false} NotAtMembers(rows: seq<Event>, millis: int)
    ensures forall e :: e in NotAt(rows, millis) <==> e in rows && Millis(e.receivedAt) != millis
  {
    if rows != [] {
      NotAtMembers(rows[..|rows| - 1], millis);
      assert rows == rows[..|rows| - 1] + [rows[|rows| - 1]];
    }
  }

  predicate InOrder(rows: seq<Event>) {
    forall i, j :: 0 <= i < j < |rows| ==> rows[i].receivedAt <= rows[j].receivedAt
  }

  lemma OrderedFacts(events: seq<Event>, from: Stamp)
    ensures var all := Ordered(After(events, from));
            && InOrder(all)
            && forall e :: e in all <==> e in events && e.receivedAt > from
  {
    var before := (a: Event, b: Event) => a.receivedAt < b.receivedAt;
    var rows := After(events, from);
    AfterMembers(events, from);
    SortKeepsRows(before, rows);
    SortSorts(before, rows);
    forall e: Event ensures e in rows <==> e in Ordered(rows) {
      assert e in multiset(rows) <==> e in multiset(Ordered(rows));
    }
  }

  lemma {:induction false} NotAtKeepsOrder(rows: seq<Event>, millis: int)
    requires InOrder(rows)
    ensures InOrder(NotAt(rows, millis))
  {
    if rows != [] {
      var front, last := rows[..|rows| - 1], rows[|rows| - 1];
      NotAtKeepsOrder(front, millis);
      NotAtMembers(front, millis);
      var kept := NotAt(front, millis);
      forall i | 0 <= i < |kept| ensures kept[i].receivedAt <= last.receivedAt {
        assert kept[i] in kept && kept[i] in front;
      }
    }
  }

  /** Events a pass leaves behind the watermark it is about to set. */
  predicate Skips(events: seq<Event>, watermark: Stamp, usable: seq<Event>, e: Event) {
    usable != [] && e in events && watermark < e.receivedAt <= Newest(usable) && e !in usable
  }

  lemma ScannedFacts(events: seq<Event>, from: Stamp)
    ensures var scanned := Scanned(events, from);
            && (scanned == [] <==> forall e :: e in events ==> e.receivedAt <= from)
            && InOrder(scanned) && |scanned| <= BATCH_LIMIT
            && (forall e :: e in scanned ==> e in events && from < e.receivedAt <= Newest(scanned))
  {
    hide Ordered, After;
    var all := Ordered(After(events, from));
    OrderedFacts(events, from);
    if Scanned(events, from) == [] {
      assert all == [];
      assert forall e :: e in events ==> e !in all;
    } else {
      assert all[0] in all;
    }
  }

  /** What a pass uses: some of what arrived after `from`, in order, and nothing only when nothing did. */
  lemma UsableFacts(events: seq<Event>, from: Stamp)
    ensures var usable := UsableFrom(events, from);
            && (usable == [] <==> forall e :: e in events ==> e.receivedAt <= from)
            && InOrder(usable)
            && (forall e :: e in usable ==> e in events && from < e.receivedAt <= Newest(usable))
  {
    hide Scanned;
    ScannedFacts(events, from);
    var scanned := Scanned(events, from);
    if scanned != [] {
      var millis := Millis(scanned[|scanned| - 1].receivedAt);
      NotAtMembers(scanned, millis);
      NotAtKeepsOrder(scanned, millis);
    }
  }

  /**
    Short of fifty thousand rows a pass uses all it scanned; a full scan gives up the rows of
    its last millisecond, to be found whole next time, unless it is all of that millisecond.
   */
  lemma UsableExactly(events: seq<Event>, from: Stamp)
    ensures var scanned, usable := Scanned(events, from), UsableFrom(events, from);
            scanned != [] ==>
              var last := scanned[|scanned| - 1].receivedAt / 1000;
              if |scanned| < 50_000 || forall e :: e in scanned ==> e.receivedAt / 1000 == last then usable == scanned
              else forall e :: e in usable <==> e in scanned && e.receivedAt / 1000 != last
  {
    hide Scanned;
    var scanned := Scanned(events, from);
    if scanned != [] {
      var millis := Millis(scanned[|scanned| - 1].receivedAt);
      NotAtMembers(scanned, millis);
      HasHead(NotAt(scanned, millis));
      ScannedFacts(events, from);
    }
  }

  /** The batch is full and all one millisecond: the warned-of oversized group. */
  predicate Oversized(scanned: seq<Event>) {
    && |scanned| == BATCH_LIMIT
    && forall e :: e in scanned ==> Millis(e.receivedAt) == Millis(scanned[|scanned| - 1].receivedAt)
  }

  lemma InPrefix(rows: seq<Event>, n: nat, k: nat)
    requires n <= |rows| && k < |rows|
    ensures k < n ==> rows[k] in rows[..n]
  {
    if k < n {
      assert rows[..n][k] == rows[k];
    }
  }

  lemma HasHead(rows: seq<Event>)
    ensures rows != [] ==> exists e :: e in rows
  {
    if rows != [] {
      assert rows[0] in rows;
    }
  }

  lemma BeyondTheCut(events: seq<Event>, from: Stamp, e: Event)
    requires e in events && e.receivedAt > from && e !in Scanned(events, from)
    ensures var scanned := Scanned(events, from);
            |scanned| == BATCH_LIMIT && scanned[BATCH_LIMIT - 1].receivedAt <= e.receivedAt
  {
    hide Ordered, After;
    var all := Ordered(After(events, from));
    OrderedFacts(events, from);
    var k :| 0 <= k < |all| && all[k] == e;
    InPrefix(all, Min(BATCH_LIMIT, |all|), k);
  }

  lemma OversizedSkips(events: seq<Event>, watermark: Stamp)
    requires Oversized(Scanned(events, watermark))
    ensures var scanned, usable := Scanned(events, watermark), UsableFrom(events, watermark);
            (exists e :: Skips(events, watermark, usable, e))
            <==> exists e :: e in events && e !in scanned && e.receivedAt == scanned[|scanned| - 1].receivedAt
  {
    hide Scanned;
    var scanned := Scanned(events, watermark);
    var last := scanned[|scanned| - 1];
    NotAtMembers(scanned, Millis(last.receivedAt));
    UsableFacts(events, watermark);
    var whole := NotAt(scanned, Millis(last.receivedAt));
    HasHead(whole);
    assert UsableFrom(events, watermark) == scanned && last in scanned;
    forall e ensures Skips(events, watermark, scanned, e)
                     <==> e in events && e !in scanned && e.receivedAt == last.receivedAt
    {
      if Skips(events, watermark, scanned, e) {
        BeyondTheCut(events, watermark, e);
      }
    }
  }

  lemma NotOversizedCovers(events: seq<Event>, watermark: Stamp, e: Event)
    requires !Oversized(Scanned(events, watermark))
    ensures !Skips(events, watermark, UsableFrom(events, watermark), e)
  {
    hide Scanned;
    var scanned, usable := Scanned(events, watermark), UsableFrom(events, watermark);
    if Skips(events, watermark, usable, e) {
      if e !in scanned {
        BeyondTheCut(events, watermark, e);
      }
      ScannedFacts(events, watermark);
      if |scanned| == BATCH_LIMIT {
        var millis := Millis(scanned[|scanned| - 1].receivedAt);
        NotAtMembers(scanned, millis);
        NewestIsEarlier(scanned);
        UsableFacts(events, watermark);
      }
    }
  }

  lemma NewestIsEarlier(scanned: seq<Event>)
    requires |scanned| == BATCH_LIMIT && !Oversized(scanned)
    requires forall e :: e in scanned ==> e.receivedAt <= scanned[|scanned| - 1].receivedAt
    ensures Usable(scanned) == NotAt(scanned, Millis(scanned[|scanned| - 1].receivedAt)) != []
    ensures Millis(Newest(Usable(scanned))) < Millis(scanned[|scanned| - 1].receivedAt)
  {
    var last := scanned[|scanned| - 1];
    NotAtMembers(scanned, Millis(last.receivedAt));
    var other :| other in scanned && Millis(other.receivedAt) != Millis(last.receivedAt);
    var whole := NotAt(scanned, Millis(last.receivedAt));
    assert other in whole;
    assert whole[|whole| - 1] in whole;
  }

  /**
    Nothing is ever left behind the watermark, but in one case exactly: an oversized group
    with yet more rows at the very stamp the batch was cut at.
   */
  lemma SkipsExactly(events: seq<Event>, watermark: Stamp)
    ensures var scanned, usable := Scanned(events, watermark), UsableFrom(events, watermark);
            (exists e :: Skips(events, watermark, usable, e))
            <==> Oversized(scanned)
                 && exists e :: e in events && e !in scanned && e.receivedAt == scanned[|scanned| - 1].receivedAt
  {
    hide Scanned, UsableFrom, Skips;
    if Oversized(Scanned(events, watermark)) {
      OversizedSkips(events, watermark);
    } else {
      forall e ensures !Skips(events, watermark, UsableFrom(events, watermark), e) {
        NotOversizedCovers(events, watermark, e);
      }
    }
  }
}
