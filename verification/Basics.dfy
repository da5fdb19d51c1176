/**
  Shared vocabulary: optional values, integer helpers, and time.

  Instants and durations are whole milliseconds. An instant counts from the Unix
  epoch, so subtracting two instants gives a duration.
 */
module Basics {

  datatype Option<+T> = None | Some(value: T)

  type Instant = int
  type Duration = int

  /** An agent release, as a dotted version string. */
  type Version = string

  const SECOND: Duration := 1000
  const MINUTE: Duration := 60 * SECOND
  const HOUR: Duration := 60 * MINUTE
  const DAY: Duration := 24 * HOUR

  function Abs(x: int): nat {
    if x < 0 then -x else x
  }

  function Max(x: int, y: int): int {
    if x < y then y else x
  }

  function Min(x: int, y: int): int {
    if x < y then x else y
  }

  lemma TimesMonotone(a: nat, b: nat, k: nat)
    requires a <= b
    ensures a * k <= b * k
  {
  }

  /** A set whose members all occur in a sequence is no larger than the sequence. */
  lemma SetWithinSeq<T>(s: set<T>, q: seq<T>)
    requires forall x :: x in s ==> x in q
    ensures |s| <= |q|
    decreases |q|
  {
    if q == [] {
      assert s == {};
    } else {
      var last := q[|q| - 1];
      var front := q[..|q| - 1];
      forall x | x in s - {last} ensures x in front {
        var i :| 0 <= i < |q| && q[i] == x;
        assert front[i] == x;
      }
      SetWithinSeq(s - {last}, front);
      assert |s| <= |s - {last}| + 1;
    }
  }

  /** Two sequences of the same rows stay so when each loses one and the same row. */
  lemma PickedOut<T>(rows: seq<T>, i: nat, front: seq<T>)
    requires i < |rows| && multiset(front + [rows[i]]) == multiset(rows)
    ensures multiset(front) == multiset(rows[..i] + rows[i + 1..])
  {
    assert rows == rows[..i] + [rows[i]] + rows[i + 1..];
    assert multiset(rows) == multiset(rows[..i] + rows[i + 1..]) + multiset{rows[i]};
    assert multiset(front + [rows[i]]) == multiset(front) + multiset{rows[i]};
    assert multiset(front) == multiset(rows) - multiset{rows[i]};
  }

  /** Something that happened at a tick of one of several process lives. */
  datatype Place = Place(life: nat, tick: nat)

  function LivesOf(places: set<Place>): set<nat> {
    set p | p in places :: p.life
  }

  function InLife(places: set<Place>, life: nat): set<nat> {
    set p | p in places && p.life == life :: p.tick
  }

  lemma {:induction false} SameLifeSize(places: set<Place>, life: nat)
    requires forall p :: p in places ==> p.life == life
    ensures |InLife(places, life)| == |places|
  {
    if places != {} {
      var p :| p in places;
      SameLifeSize(places - {p}, life);
      assert InLife(places, life) == InLife(places - {p}, life) + {p.tick};
      assert p.tick !in InLife(places - {p}, life);
    }
  }

  /** So many to a life is so many times the lives. */
  lemma {:induction false} PerLife(places: set<Place>, limit: nat)
    requires forall life :: life in LivesOf(places) ==> |InLife(places, life)| <= limit
    ensures |places| <= limit * |LivesOf(places)|
    decreases |LivesOf(places)|
  {
    if places != {} {
      var p :| p in places;
      var life := p.life;
      assert life in LivesOf(places);
      var those, rest := (set q | q in places && q.life == life), (set q | q in places && q.life != life);
      assert places == those + rest;
      assert LivesOf(rest) == LivesOf(places) - {life};
      forall other | other in LivesOf(rest) ensures |InLife(rest, other)| <= limit {
        assert InLife(rest, other) == InLife(places, other);
      }
      PerLife(rest, limit);
      SameLifeSize(those, life);
      assert InLife(those, life) == InLife(places, life);
      assert |places| == |those| + |rest|;
      assert limit * |LivesOf(places)| == limit * |LivesOf(rest)| + limit;
    }
  }

  lemma Largest(s: set<nat>) returns (m: nat)
    requires s != {}
    ensures m in s && forall x :: x in s ==> x <= m
  {
    var x :| x in s;
    var rest := s - {x};
    m := x;
    if rest != {} {
      var n := Largest(rest);
      m := if x < n then n else x;
    }
    forall y | y in s ensures y <= m {
      assert y == x || y in rest;
    }
  }

  /** The instants less than a day before `now`. */
  function WithinDay(instants: seq<Instant>, now: Instant): seq<Instant> {
    if instants == [] then []
    else
      var front, last := WithinDay(instants[..|instants| - 1], now), instants[|instants| - 1];
      if now - last < DAY then front + [last] else front
  }

  lemma WithinDayLast(instants: seq<Instant>, last: Instant, now: Instant)
    ensures WithinDay(instants + [last], now)
            == if now - last < DAY then WithinDay(instants, now) + [last] else WithinDay(instants, now)
  {
    assert (instants + [last])[..|instants|] == instants;
  }

  /** Dropping the day-old instants now and again later is dropping them once, later. */
  lemma {:induction false} WithinDayTwice(instants: seq<Instant>, earlier: Instant, later: Instant)
    requires earlier <= later
    ensures WithinDay(WithinDay(instants, earlier), later) == WithinDay(instants, later)
  {
    if instants != [] {
      var front, last := instants[..|instants| - 1], instants[|instants| - 1];
      WithinDayTwice(front, earlier, later);
      WithinDayLast(WithinDay(front, earlier), last, later);
    }
  }

  /** The places of the instants less than a day before `now`. */
  function PlacesWithinDay(instants: seq<Instant>, now: Instant): set<nat> {
    set i: nat | i < |instants| && now - instants[i] < DAY
  }

  lemma {:induction false} WithinDayCounted(instants: seq<Instant>, now: Instant)
    ensures |WithinDay(instants, now)| == |PlacesWithinDay(instants, now)|
  {
    var places := PlacesWithinDay(instants, now);
    if instants == [] {
      assert places == {};
    } else {
      var n := |instants| - 1;
      var front := instants[..n];
      WithinDayCounted(front, now);
      assert places - {n} == PlacesWithinDay(front, now);
    }
  }
}
