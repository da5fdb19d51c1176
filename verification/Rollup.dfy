/** Rolling hours into local days. */
module Rollup {
  import opened Basics
  import opened Projector

  type Day = int

  datatype DayKey = DayKey(device: nat, day: Day, bundle: string)

  datatype Seconds = Seconds(foreground: int, active: int)

  const NO_SECONDS := Seconds(0, 0)

  function Plus(a: Seconds, b: Seconds): Seconds {
    Seconds(a.foreground + b.foreground, a.active + b.active)
  }

  /** The local day of a device-hour, in the zone of the device's child or household. */
  function DayKeyOf(key: Key, dayOf: Bucket -> Day): DayKey {
    DayKey(key.bucket.device, dayOf(key.bucket), key.bundle)
  }

  function SecondsOf(row: UsageRow): Seconds {
    Seconds(row.foregroundS, row.activeS)
  }

  /** The hours of one day, within a range of hours. */
  function SumOf(rows: seq<UsageRow>, day: DayKey, dayOf: Bucket -> Day, counted: Instant -> bool): Seconds {
    if rows == [] then NO_SECONDS
    else
      var front, last := SumOf(rows[..|rows| - 1], day, dayOf, counted), rows[|rows| - 1];
      if DayKeyOf(last.key, dayOf) == day && counted(last.key.bucket.hour) then Plus(front, SecondsOf(last)) else front
  }

  predicate HasHour(rows: seq<UsageRow>, day: DayKey, dayOf: Bucket -> Day, counted: Instant -> bool) {
    exists row :: row in rows && DayKeyOf(row.key, dayOf) == day && counted(row.key.bucket.hour)
  }

  function From(since: Instant): Instant -> bool {
    hour => hour >= since
  }

  function Before(since: Instant): Instant -> bool {
    hour => hour < since
  }

  function Always(): Instant -> bool {
    hour => true
  }

  ghost predicate SumsDays(
      sums: map<DayKey, Seconds>, rows: seq<UsageRow>, dayOf: Bucket -> Day, counted: Instant -> bool)
  {
    && (forall day :: day in sums <==> HasHour(rows, day, dayOf, counted))
    && (forall day :: day in sums ==> sums[day] == SumOf(rows, day, dayOf, counted))
  }

  class DailyTable {
    var daily: map<DayKey, Seconds>

    constructor ()
      ensures daily == map[]
    {
      daily := map[];
    }

    /** Every day with an hour in the window is overwritten with the sum of those hours; no other day is touched. */
    method RollUpDaily(rows: seq<UsageRow>, since: Instant, dayOf: Bucket -> Day) returns (days: nat)
      modifies this
      ensures forall day :: day in daily <==> day in old(daily) || HasHour(rows, day, dayOf, From(since))
      ensures forall day :: day in daily ==>
                daily[day] == if HasHour(rows, day, dayOf, From(since)) then SumOf(rows, day, dayOf, From(since))
                              else old(daily)[day]
    {
      var sums: map<DayKey, Seconds> := map[];
      for i := 0 to |rows|
        invariant SumsDays(sums, rows[..i], dayOf, From(since))
        invariant daily == old(daily)
      {
        var row := rows[i];
        assert rows[..i + 1] == rows[..i] + [row];
        OneMoreHour(sums, rows[..i], row, dayOf, From(since));
        if row.key.bucket.hour < since { continue; }
        var day := DayKeyOf(row.key, dayOf);
        var acc := if day in sums then sums[day] else NO_SECONDS;
        sums := sums[day := Plus(acc, SecondsOf(row))];
      }
      assert rows[..|rows|] == rows;
      daily := daily + sums;
      days := |sums|;
    }
  }

  lemma {:induction false} NoHourNoSeconds(
      rows: seq<UsageRow>, day: DayKey, dayOf: Bucket -> Day, counted: Instant -> bool)
    requires !HasHour(rows, day, dayOf, counted)
    ensures SumOf(rows, day, dayOf, counted) == NO_SECONDS
  {
    if rows != [] {
      var front, last := rows[..|rows| - 1], rows[|rows| - 1];
      assert rows == front + [last];
      NoHourNoSeconds(front, day, dayOf, counted);
    }
  }

  lemma OneMoreHour(
      sums: map<DayKey, Seconds>, rows: seq<UsageRow>, row: UsageRow, dayOf: Bucket -> Day, counted: Instant -> bool)
    requires SumsDays(sums, rows, dayOf, counted)
    ensures var day := DayKeyOf(row.key, dayOf);
            var acc := if day in sums then sums[day] else NO_SECONDS;
            SumsDays(if counted(row.key.bucket.hour) then sums[day := Plus(acc, SecondsOf(row))] else sums,
                        rows + [row], dayOf, counted)
  {
    var day := DayKeyOf(row.key, dayOf);
    assert (rows + [row])[..|rows|] == rows;
    forall d
      ensures HasHour(rows + [row], d, dayOf, counted)
              <==> HasHour(rows, d, dayOf, counted) || (d == day && counted(row.key.bucket.hour))
    {
      if HasHour(rows, d, dayOf, counted) {
        var r :| r in rows && DayKeyOf(r.key, dayOf) == d && counted(r.key.bucket.hour);
        assert r in rows + [row];
      }
      assert row in rows + [row];
    }
    if day !in sums {
      NoHourNoSeconds(rows, day, dayOf, counted);
    }
  }

  // ---- Which days come out whole ----------------------------------------------------------------------------

  lemma {:induction false} SumSplits(rows: seq<UsageRow>, day: DayKey, dayOf: Bucket -> Day, since: Instant)
    ensures SumOf(rows, day, dayOf, Always())
            == Plus(SumOf(rows, day, dayOf, Before(since)), SumOf(rows, day, dayOf, From(since)))
  {
    if rows == [] {
      assert SumOf(rows, day, dayOf, Always()) == NO_SECONDS;
      assert SumOf(rows, day, dayOf, Before(since)) == NO_SECONDS;
      assert SumOf(rows, day, dayOf, From(since)) == NO_SECONDS;
    } else {
      SumSplits(rows[..|rows| - 1], day, dayOf, since);
    }
  }

  /** Of the day, before the window, and worth something. */
  predicate Missed(row: UsageRow, day: DayKey, dayOf: Bucket -> Day, since: Instant) {
    DayKeyOf(row.key, dayOf) == day && row.key.bucket.hour < since && SecondsOf(row) != NO_SECONDS
  }

  predicate NoneMissed(rows: seq<UsageRow>, day: DayKey, dayOf: Bucket -> Day, since: Instant) {
    forall row :: row in rows ==> !Missed(row, day, dayOf, since)
  }

  predicate NonNegative(rows: seq<UsageRow>) {
    forall row :: row in rows ==> row.foregroundS >= 0 && row.activeS >= 0
  }

  lemma {:induction false} NothingMissedExactly(rows: seq<UsageRow>, day: DayKey, dayOf: Bucket -> Day, since: Instant)
    requires NonNegative(rows)
    ensures var missing := SumOf(rows, day, dayOf, Before(since));
            && missing.foreground >= 0 && missing.active >= 0
            && (missing == NO_SECONDS <==> NoneMissed(rows, day, dayOf, since))
  {
    if rows == [] {
      assert SumOf(rows, day, dayOf, Before(since)) == NO_SECONDS;
    } else {
      var front, last := rows[..|rows| - 1], rows[|rows| - 1];
      assert rows == front + [last];
      NothingMissedExactly(front, day, dayOf, since);
      assert NoneMissed(rows, day, dayOf, since)
        <==> NoneMissed(front, day, dayOf, since) && !Missed(last, day, dayOf, since);
    }
  }

  /**
    A day the roll-up writes comes out whole exactly when what lies before the window adds
    up to nothing; for seconds, which are never negative, when every hour of the day worth
    any lies in the window.
   */
  lemma WrittenDayIsWholeExactly(rows: seq<UsageRow>, day: DayKey, dayOf: Bucket -> Day, since: Instant)
    ensures var whole := SumOf(rows, day, dayOf, From(since)) == SumOf(rows, day, dayOf, Always());
            && (whole <==> SumOf(rows, day, dayOf, Before(since)) == NO_SECONDS)
            && (NonNegative(rows) ==> (whole <==> NoneMissed(rows, day, dayOf, since)))
  {
    SumSplits(rows, day, dayOf, since);
    if NonNegative(rows) {
      NothingMissedExactly(rows, day, dayOf, since);
    }
  }

  /** A device's days follow its hours. */
  predicate DaysFollowHours(rows: seq<UsageRow>, dayOf: Bucket -> Day) {
    forall a, b | a in rows && b in rows && a.key.bucket.device == b.key.bucket.device ::
      a.key.bucket.hour <= b.key.bucket.hour ==> dayOf(a.key.bucket) <= dayOf(b.key.bucket)
  }

  /** Only the day the window opens in can be torn: two torn days of one device are the same day. */
  lemma OnlyTheOpeningDayIsTorn(rows: seq<UsageRow>, a: DayKey, b: DayKey, dayOf: Bucket -> Day, since: Instant)
    requires DaysFollowHours(rows, dayOf) && a.device == b.device
    requires HasHour(rows, a, dayOf, From(since)) && HasHour(rows, b, dayOf, From(since))
    requires SumOf(rows, a, dayOf, From(since)) != SumOf(rows, a, dayOf, Always())
    requires SumOf(rows, b, dayOf, From(since)) != SumOf(rows, b, dayOf, Always())
    ensures a.day == b.day
  {
    var a0, a1 := StraddlingHours(rows, a, dayOf, since);
    var b0, b1 := StraddlingHours(rows, b, dayOf, since);
  }

  lemma StraddlingHours(rows: seq<UsageRow>, day: DayKey, dayOf: Bucket -> Day, since: Instant)
    returns (early: UsageRow, late: UsageRow)
    requires HasHour(rows, day, dayOf, From(since))
    requires SumOf(rows, day, dayOf, From(since)) != SumOf(rows, day, dayOf, Always())
    ensures early in rows && late in rows && DayKeyOf(early.key, dayOf) == day == DayKeyOf(late.key, dayOf)
    ensures early.key.bucket.hour < since <= late.key.bucket.hour
  {
    WrittenDayIsWholeExactly(rows, day, dayOf, since);
    if !HasHour(rows, day, dayOf, Before(since)) {
      NoHourNoSeconds(rows, day, dayOf, Before(since));
    }
    early :| early in rows && DayKeyOf(early.key, dayOf) == day && Before(since)(early.key.bucket.hour);
    late :| late in rows && DayKeyOf(late.key, dayOf) == day && From(since)(late.key.bucket.hour);
  }

  // ---- Daily totals against the events themselves -------------------------------------------------------------

  ghost predicate Lists(rows: seq<UsageRow>, usage: set<UsageRow>) {
    && (forall row :: row in rows <==> row in usage)
    && (forall i, j :: 0 <= i < j < |rows| ==> rows[i].key != rows[j].key)
  }

  /** A sample of the day's program on the day's device, in an hour that begins on that local day. */
  predicate InDay(e: Event, day: DayKey, dayOf: Bucket -> Day) {
    && e.sample.Some? && e.sample.value.bundle == day.bundle
    && e.device == day.device && dayOf(Bucket(e.device, e.ts - e.ts % HOUR)) == day.day
  }

  lemma InDayExactly(e: Event, day: DayKey, dayOf: Bucket -> Day)
    ensures InDay(e, day, dayOf) <==> e.sample.Some? && DayKeyOf(KeyOf(e), dayOf) == day
  {
    assert BucketOf(e) == Bucket(e.device, e.ts - e.ts % HOUR) by {
      BucketExactly(e, e.device, e.ts - e.ts % HOUR);
    }
  }

  function SampleSeconds(e: Event, day: DayKey, dayOf: Bucket -> Day): Seconds {
    if InDay(e, day, dayOf)
    then Seconds(e.sample.value.foregroundS, e.sample.value.activeS) else NO_SECONDS
  }

  function EventSum(events: seq<Event>, day: DayKey, dayOf: Bucket -> Day): Seconds {
    if events == [] then NO_SECONDS
    else Plus(EventSum(events[..|events| - 1], day, dayOf), SampleSeconds(events[|events| - 1], day, dayOf))
  }

  /** The day's total by recounting each of these keys. */
  function KeySum(keys: seq<Key>, events: seq<Event>, day: DayKey, dayOf: Bucket -> Day): Seconds {
    if keys == [] then NO_SECONDS
    else
      var front, last := KeySum(keys[..|keys| - 1], events, day, dayOf), keys[|keys| - 1];
      var t := TotalsOf(events, last);
      if DayKeyOf(last, dayOf) == day then Plus(front, Seconds(t.foregroundS, t.activeS)) else front
  }

  predicate Distinct(keys: seq<Key>) {
    forall i, j :: 0 <= i < j < |keys| ==> keys[i] != keys[j]
  }

  lemma {:induction false} OneMoreSample(
      keys: seq<Key>, events: seq<Event>, e: Event, day: DayKey, dayOf: Bucket -> Day)
    requires Distinct(keys)
    ensures KeySum(keys, events + [e], day, dayOf)
            == if e.sample.Some? && KeyOf(e) in keys
               then Plus(KeySum(keys, events, day, dayOf), SampleSeconds(e, day, dayOf))
               else KeySum(keys, events, day, dayOf)
  {
    if keys != [] {
      var front, last := keys[..|keys| - 1], keys[|keys| - 1];
      assert keys == front + [last];
      OneMoreSample(front, events, e, day, dayOf);
      InDayExactly(e, day, dayOf);
      hide InDay;
      assert (events + [e])[..|events|] == events;
    }
  }

  lemma {:induction false} NoEventsNoSum(keys: seq<Key>, day: DayKey, dayOf: Bucket -> Day)
    ensures KeySum(keys, [], day, dayOf) == NO_SECONDS
  {
    if keys != [] {
      NoEventsNoSum(keys[..|keys| - 1], day, dayOf);
    }
  }

  lemma SumsGrowTogether(keys: seq<Key>, events: seq<Event>, e: Event, day: DayKey, dayOf: Bucket -> Day)
    requires Distinct(keys) && (e.sample.Some? ==> KeyOf(e) in keys)
    requires KeySum(keys, events, day, dayOf) == EventSum(events, day, dayOf)
    ensures KeySum(keys, events + [e], day, dayOf) == EventSum(events + [e], day, dayOf)
  {
    hide KeySum;
    OneMoreSample(keys, events, e, day, dayOf);
    assert (events + [e])[..|events|] == events;
    assert EventSum(events + [e], day, dayOf) == Plus(EventSum(events, day, dayOf), SampleSeconds(e, day, dayOf));
  }

  lemma {:induction false} KeySumIsEventSum(keys: seq<Key>, events: seq<Event>, day: DayKey, dayOf: Bucket -> Day)
    requires Distinct(keys) && forall e :: e in events && e.sample.Some? ==> KeyOf(e) in keys
    ensures KeySum(keys, events, day, dayOf) == EventSum(events, day, dayOf)
  {
    if events == [] {
      NoEventsNoSum(keys, day, dayOf);
    } else {
      var front, last := events[..|events| - 1], events[|events| - 1];
      assert events == front + [last];
      KeySumIsEventSum(keys, front, day, dayOf);
      SumsGrowTogether(keys, front, last, day, dayOf);
    }
  }

  function RowKeys(rows: seq<UsageRow>): (keys: seq<Key>)
    ensures |keys| == |rows| && forall i :: 0 <= i < |rows| ==> keys[i] == rows[i].key
  {
    seq(|rows|, i requires 0 <= i < |rows| => rows[i].key)
  }

  lemma {:induction false} RowSumIsKeySum(rows: seq<UsageRow>, events: seq<Event>, day: DayKey, dayOf: Bucket -> Day)
    requires forall row :: row in rows ==> row == RowFor(row.key, TotalsOf(events, row.key))
    ensures SumOf(rows, day, dayOf, Always()) == KeySum(RowKeys(rows), events, day, dayOf)
  {
    if rows != [] {
      var front, last := rows[..|rows| - 1], rows[|rows| - 1];
      assert rows == front + [last];
      RowSumIsKeySum(front, events, day, dayOf);
      assert RowKeys(rows)[..|rows| - 1] == RowKeys(front);
      assert last == RowFor(last.key, TotalsOf(events, last.key));
    }
  }

  /**
    From events to days: over an exact hourly table, a local day none of whose hours lies
    before the window rolls up to the sum of its samples, in whatever order the hours come back.
   */
  lemma WholeDayIsEventSum(
      rows: seq<UsageRow>, events: seq<Event>, day: DayKey, dayOf: Bucket -> Day, since: Instant)
    requires Lists(rows, FromScratch(events))
    requires !HasHour(rows, day, dayOf, Before(since))
    ensures SumOf(rows, day, dayOf, From(since)) == EventSum(events, day, dayOf)
    ensures HasHour(rows, day, dayOf, From(since)) <==>
              exists e :: e in events && InDay(e, day, dayOf)
  {
    WrittenDayIsWholeExactly(rows, day, dayOf, since);
    NoHourNoSeconds(rows, day, dayOf, Before(since));
    RowSumIsKeySum(rows, events, day, dayOf);
    var keys := RowKeys(rows);
    forall e | e in events && e.sample.Some? ensures KeyOf(e) in keys {
      var row := RowFor(KeyOf(e), TotalsOf(events, KeyOf(e)));
      assert KeyOf(e) in KeysOf(events) && row in FromScratch(events);
      var i :| 0 <= i < |rows| && rows[i] == row;
      assert keys[i] == KeyOf(e);
    }
    KeySumIsEventSum(keys, events, day, dayOf);
    HoursAreSamples(rows, events, day, dayOf, since);
  }

  lemma HoursAreSamples(
      rows: seq<UsageRow>, events: seq<Event>, day: DayKey, dayOf: Bucket -> Day, since: Instant)
    requires Lists(rows, FromScratch(events))
    requires !HasHour(rows, day, dayOf, Before(since))
    ensures HasHour(rows, day, dayOf, From(since)) <==>
              exists e :: e in events && InDay(e, day, dayOf)
  {
    hide InDay;
    if HasHour(rows, day, dayOf, From(since)) {
      var row :| row in rows && DayKeyOf(row.key, dayOf) == day && From(since)(row.key.bucket.hour);
      assert row in FromScratch(events);
      assert row.key in KeysOf(events);
      var e :| e in events && e.sample.Some? && KeyOf(e) == row.key;
      InDayExactly(e, day, dayOf);
    }
    if exists e :: e in events && InDay(e, day, dayOf) {
      var e :| e in events && InDay(e, day, dayOf);
      InDayExactly(e, day, dayOf);
      assert KeyOf(e) in KeysOf(events);
      var row := RowFor(KeyOf(e), TotalsOf(events, KeyOf(e)));
      assert row in FromScratch(events) && row in rows;
      assert !Before(since)(row.key.bucket.hour);
    }
  }
}
