/**
  Stable insertion sort by a "comes before" comparison, and the fact the policy
  compiler rests on: with no two rows incomparable, the sorted order depends only
  on which rows there are.
 */
module Sorting {

  /** A strict weak order: never both ways, and incomparability is transitive. */
  ghost predicate StrictWeak<T(!new)>(before: (T, T) -> bool) {
    && (forall a, b :: before(a, b) ==> !before(b, a))
    && (forall a, b, c :: before(a, c) ==> before(a, b) || before(b, c))
  }

  function Insert<T>(before: (T, T) -> bool, sorted: seq<T>, x: T): seq<T> {
    if sorted == [] || !before(x, sorted[|sorted| - 1]) then sorted + [x]
    else Insert(before, sorted[..|sorted| - 1], x) + [sorted[|sorted| - 1]]
  }

  function Sort<T>(before: (T, T) -> bool, rows: seq<T>): seq<T> {
    if rows == [] then [] else Insert(before, Sort(before, rows[..|rows| - 1]), rows[|rows| - 1])
  }

  ghost predicate Sorted<T>(before: (T, T) -> bool, rows: seq<T>) {
    forall i, j :: 0 <= i < j < |rows| ==> !before(rows[j], rows[i])
  }

  lemma {:induction false} InsertKeepsRows<T>(before: (T, T) -> bool, sorted: seq<T>, x: T)
    ensures multiset(Insert(before, sorted, x)) == multiset(sorted) + multiset{x}
  {
    if sorted != [] && before(x, sorted[|sorted| - 1]) {
      InsertKeepsRows(before, sorted[..|sorted| - 1], x);
      assert sorted == sorted[..|sorted| - 1] + [sorted[|sorted| - 1]];
    }
  }

  lemma {:induction false} SortKeepsRows<T>(before: (T, T) -> bool, rows: seq<T>)
    ensures multiset(Sort(before, rows)) == multiset(rows)
  {
    if rows != [] {
      SortKeepsRows(before, rows[..|rows| - 1]);
      InsertKeepsRows(before, Sort(before, rows[..|rows| - 1]), rows[|rows| - 1]);
      assert rows == rows[..|rows| - 1] + [rows[|rows| - 1]];
    }
  }

  lemma {:induction false} InsertSorts<T(!new)>(before: (T, T) -> bool, sorted: seq<T>, x: T)
    requires StrictWeak(before) && Sorted(before, sorted)
    ensures Sorted(before, Insert(before, sorted, x))
  {
    if sorted != [] {
      var front, last := sorted[..|sorted| - 1], sorted[|sorted| - 1];
      if before(x, last) {
        InsertSorts(before, front, x);
        InsertKeepsRows(before, front, x);
        var inserted := Insert(before, front, x);
        forall i | 0 <= i < |inserted| ensures !before(last, inserted[i]) {
          assert inserted[i] in multiset(inserted);
          assert inserted[i] in front || inserted[i] == x;
        }
      } else {
        forall i | 0 <= i < |sorted| ensures !before(x, sorted[i]) {
          assert !before(last, sorted[i]) && !before(x, last);
        }
      }
    }
  }

  lemma {:induction false} SortSorts<T(!new)>(before: (T, T) -> bool, rows: seq<T>)
    requires StrictWeak(before)
    ensures Sorted(before, Sort(before, rows))
  {
    if rows != [] {
      SortSorts(before, rows[..|rows| - 1]);
      InsertSorts(before, Sort(before, rows[..|rows| - 1]), rows[|rows| - 1]);
    }
  }

  /** Distinct rows are comparable one way or the other. */
  ghost predicate Comparable<T>(before: (T, T) -> bool, rows: seq<T>) {
    forall a, b :: a in rows && b in rows && a != b ==> before(a, b) || before(b, a)
  }

  lemma SortedLastIsUnique<T(!new)>(before: (T, T) -> bool, p: seq<T>, q: seq<T>)
    requires StrictWeak(before) && Comparable(before, p)
    requires Sorted(before, p) && Sorted(before, q)
    requires p != [] && q != [] && multiset(p) == multiset(q)
    ensures p[|p| - 1] == q[|q| - 1]
  {
    var lastP, lastQ := p[|p| - 1], q[|q| - 1];
    assert lastP in multiset(q) && lastQ in multiset(p);
    var i :| 0 <= i < |q| && q[i] == lastP;
    var k :| 0 <= k < |p| && p[k] == lastQ;
  }

  lemma SortedFront<T(!new)>(before: (T, T) -> bool, p: seq<T>)
    requires p != [] && Comparable(before, p) && Sorted(before, p)
    ensures Comparable(before, p[..|p| - 1]) && Sorted(before, p[..|p| - 1])
    ensures multiset(p[..|p| - 1]) == multiset(p) - multiset{p[|p| - 1]}
  {
    assert p == p[..|p| - 1] + [p[|p| - 1]];
  }

  lemma {:induction false} SortedOrderIsUnique<T(!new)>(before: (T, T) -> bool, p: seq<T>, q: seq<T>)
    requires StrictWeak(before) && Comparable(before, p) && Comparable(before, q)
    requires Sorted(before, p) && Sorted(before, q)
    requires multiset(p) == multiset(q)
    ensures p == q
  {
    assert |multiset(p)| == |p| && |multiset(q)| == |q|;
    if p != [] {
      SortedLastIsUnique(before, p, q);
      SortedFront(before, p);
      SortedFront(before, q);
      SortedOrderIsUnique(before, p[..|p| - 1], q[..|q| - 1]);
    }
  }

  /** Sorting forgets the order the rows arrived in. */
  lemma SortIgnoresRowOrder<T(!new)>(before: (T, T) -> bool, p: seq<T>, q: seq<T>)
    requires StrictWeak(before) && Comparable(before, p)
    requires multiset(p) == multiset(q)
    ensures Sort(before, p) == Sort(before, q)
  {
    SortKeepsRows(before, p);
    SortKeepsRows(before, q);
    SortSorts(before, p);
    SortSorts(before, q);
    SameRowsComparable(before, p, Sort(before, p));
    SameRowsComparable(before, p, Sort(before, q));
    SortedOrderIsUnique(before, Sort(before, p), Sort(before, q));
  }

  lemma SameRowsComparable<T(!new)>(before: (T, T) -> bool, p: seq<T>, q: seq<T>)
    requires Comparable(before, p) && multiset(p) == multiset(q)
    ensures Comparable(before, q)
  {
    forall a | a in q ensures a in p {
      assert a in multiset(q);
    }
  }
}
