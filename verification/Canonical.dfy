/**
  The content address: objects key-sorted all the way down, three fields left out, and two
  documents share an address exactly when they say the same thing elsewhere.
 */
module Canonical {
  import opened Sorting

  datatype Member = Member(key: string, value: Json)

  /** A JSON value as parsed: an object lists its members in some order. */
  datatype Json = Scalar(text: string) | Array(items: seq<Json>) | Object(members: seq<Member>)

  /** No object names a key twice. */
  predicate WellFormed(j: Json) {
    match j
    case Scalar(_) => true
    case Array(items) => forall i :: 0 <= i < |items| ==> WellFormed(items[i])
    case Object(members) =>
      DistinctKeys(members) && forall i :: 0 <= i < |members| ==> WellFormed(members[i].value)
  }

  predicate DistinctKeys(members: seq<Member>) {
    forall i, j :: 0 <= i < j < |members| ==> members[i].key != members[j].key
  }

  /** The order `sort` gives strings, whatever it is. */
  ghost predicate Total(before: (string, string) -> bool) {
    StrictWeak(before) && forall a, b :: a != b ==> before(a, b) || before(b, a)
  }

  function ByKey(before: (string, string) -> bool): (Member, Member) -> bool {
    (a: Member, b: Member) => before(a.key, b.key)
  }

  function SortItems(before: (string, string) -> bool, items: seq<Json>): (sorted: seq<Json>)
    ensures |sorted| == |items|
    ensures forall i :: 0 <= i < |items| ==> sorted[i] == SortKeys(before, items[i])
  {
    if items == [] then []
    else SortItems(before, items[..|items| - 1]) + [SortKeys(before, items[|items| - 1])]
  }

  function SortValues(before: (string, string) -> bool, members: seq<Member>): (sorted: seq<Member>)
    ensures |sorted| == |members|
    ensures forall i :: 0 <= i < |members| ==>
              sorted[i] == Member(members[i].key, SortKeys(before, members[i].value))
  {
    if members == [] then []
    else
      var last := members[|members| - 1];
      SortValues(before, members[..|members| - 1]) + [Member(last.key, SortKeys(before, last.value))]
  }

  function SortKeys(before: (string, string) -> bool, j: Json): Json {
    match j
    case Scalar(_) => j
    case Array(items) => Array(SortItems(before, items))
    case Object(members) => Object(Sort(ByKey(before), SortValues(before, members)))
  }

  // ---- Same content, whatever the key order ------------------------------------------------------------

  /** Every member of one has its counterpart in the other. */
  ghost predicate Within(a: seq<Member>, b: seq<Member>)
    decreases a, 1
  {
    forall i :: 0 <= i < |a| ==> exists j :: 0 <= j < |b| && a[i].key == b[j].key && SameContent(a[i].value, b[j].value)
  }

  ghost predicate SameContent(a: Json, b: Json)
    decreases a, 0
  {
    match (a, b)
    case (Scalar(s), Scalar(t)) => s == t
    case (Array(p), Array(q)) => |p| == |q| && forall i :: 0 <= i < |p| ==> SameContent(p[i], q[i])
    case (Object(p), Object(q)) => |p| == |q| && Within(p, q)
    case _ => false
  }

  lemma ByKeyIsStrictWeak(before: (string, string) -> bool)
    requires Total(before)
    ensures StrictWeak(ByKey(before))
  {
    var byKey := ByKey(before);
    forall a, b ensures byKey(a, b) ==> !byKey(b, a) {
      assert before(a.key, b.key) ==> !before(b.key, a.key);
    }
    forall a, b, c ensures byKey(a, c) ==> byKey(a, b) || byKey(b, c) {
      assert before(a.key, c.key) ==> before(a.key, b.key) || before(b.key, c.key);
    }
  }

  lemma {:induction false} AtMostOnce(members: seq<Member>, m: Member)
    requires DistinctKeys(members)
    ensures multiset(members)[m] <= 1
  {
    if members != [] {
      var front, last := members[..|members| - 1], members[|members| - 1];
      assert members == front + [last];
      AtMostOnce(front, m);
      if m in front {
        var i :| 0 <= i < |front| && front[i] == m;
        assert members[i] == m;
      }
    }
  }

  lemma SameMembers(p: seq<Member>, q: seq<Member>)
    requires DistinctKeys(p) && |p| == |q|
    requires forall m :: m in p ==> m in q
    ensures multiset(p) == multiset(q)
  {
    forall m ensures multiset(p)[m] <= multiset(q)[m] {
      AtMostOnce(p, m);
      assert m in p ==> m in multiset(q);
      assert m !in p ==> m !in multiset(p);
    }
    assert multiset(p) <= multiset(q);
    assert |multiset(q) - multiset(p)| == |multiset(q)| - |multiset(p)|;
    assert multiset(q) == multiset(p) + (multiset(q) - multiset(p));
  }

  lemma SortsAlike(before: (string, string) -> bool, p: seq<Member>, q: seq<Member>)
    requires Total(before) && DistinctKeys(p)
    ensures Sort(ByKey(before), p) == Sort(ByKey(before), q) <==> multiset(p) == multiset(q)
  {
    ByKeyIsStrictWeak(before);
    SortKeepsRows(ByKey(before), p);
    SortKeepsRows(ByKey(before), q);
    assert Comparable(ByKey(before), p);
    if multiset(p) == multiset(q) {
      SortIgnoresRowOrder(ByKey(before), p, q);
    }
  }

  /** The canonical form is a content address: equal exactly for equal content, at any depth. */
  lemma {:induction false} CanonicalExactly(before: (string, string) -> bool, a: Json, b: Json)
    requires Total(before) && WellFormed(a) && WellFormed(b)
    ensures SortKeys(before, a) == SortKeys(before, b) <==> SameContent(a, b)
    decreases a
  {
    match (a, b) {
      case (Array(p), Array(q)) =>
        if |p| == |q| {
          forall i | 0 <= i < |p|
            ensures SortKeys(before, p[i]) == SortKeys(before, q[i]) <==> SameContent(p[i], q[i])
          {
            CanonicalExactly(before, p[i], q[i]);
          }
          ArraysExactly(before, p, q);
        }
      case (Object(p), Object(q)) =>
        forall i, j | 0 <= i < |p| && 0 <= j < |q|
          ensures SortKeys(before, p[i].value) == SortKeys(before, q[j].value)
                  <==> SameContent(p[i].value, q[j].value)
        {
          CanonicalExactly(before, p[i].value, q[j].value);
        }
        ObjectsExactly(before, p, q);
      case _ =>
    }
  }

  lemma ArraysExactly(before: (string, string) -> bool, p: seq<Json>, q: seq<Json>)
    requires |p| == |q|
    requires forall i :: 0 <= i < |p| ==>
               (SortKeys(before, p[i]) == SortKeys(before, q[i]) <==> SameContent(p[i], q[i]))
    ensures SortItems(before, p) == SortItems(before, q) <==> forall i :: 0 <= i < |p| ==> SameContent(p[i], q[i])
  {
    hide SortKeys, SameContent;
    var sp, sq := SortItems(before, p), SortItems(before, q);
    if sp == sq {
      forall i | 0 <= i < |p| ensures SameContent(p[i], q[i]) {
        assert sp[i] == sq[i];
      }
    }
  }

  /** Member by member, the values' canonical forms decide the content. */
  ghost predicate Decided(before: (string, string) -> bool, p: seq<Member>, q: seq<Member>) {
    forall i, j :: 0 <= i < |p| && 0 <= j < |q| ==>
      (SortKeys(before, p[i].value) == SortKeys(before, q[j].value) <==> SameContent(p[i].value, q[j].value))
  }

  lemma ObjectsExactly(before: (string, string) -> bool, p: seq<Member>, q: seq<Member>)
    requires Total(before) && DistinctKeys(p) && DistinctKeys(q) && Decided(before, p, q)
    ensures Sort(ByKey(before), SortValues(before, p)) == Sort(ByKey(before), SortValues(before, q))
            <==> |p| == |q| && Within(p, q)
  {
    hide SortKeys, SameContent, Total, SortValues, Within, Decided, DistinctKeys;
    var sp, sq := SortValues(before, p), SortValues(before, q);
    ValuesDistinct(before, p);
    SortsAlike(before, sp, sq);
    if multiset(sp) == multiset(sq) {
      SameFormsWithin(before, p, q);
    }
    if |p| == |q| && Within(p, q) {
      WithinSameForms(before, p, q);
    }
  }

  lemma ValuesDistinct(before: (string, string) -> bool, p: seq<Member>)
    requires DistinctKeys(p)
    ensures DistinctKeys(SortValues(before, p))
  {
    hide SortKeys;
  }

  lemma SameFormsWithin(before: (string, string) -> bool, p: seq<Member>, q: seq<Member>)
    requires Decided(before, p, q) && multiset(SortValues(before, p)) == multiset(SortValues(before, q))
    ensures |p| == |q| && Within(p, q)
  {
    hide SortKeys, SameContent, SortValues;
    var sp, sq := SortValues(before, p), SortValues(before, q);
    assert |multiset(sp)| == |sp| && |multiset(sq)| == |sq|;
    forall i | 0 <= i < |p|
      ensures exists j :: 0 <= j < |q| && p[i].key == q[j].key && SameContent(p[i].value, q[j].value)
    {
      assert sp[i] in multiset(sq);
      var j :| 0 <= j < |sq| && sq[j] == sp[i];
      assert SameContent(p[i].value, q[j].value);
    }
  }

  lemma WithinSameForms(before: (string, string) -> bool, p: seq<Member>, q: seq<Member>)
    requires Decided(before, p, q) && DistinctKeys(p) && |p| == |q| && Within(p, q)
    ensures multiset(SortValues(before, p)) == multiset(SortValues(before, q))
  {
    hide SortKeys, SameContent, SortValues;
    var sp, sq := SortValues(before, p), SortValues(before, q);
    forall m | m in sp ensures m in sq {
      var i :| 0 <= i < |sp| && sp[i] == m;
      var j :| 0 <= j < |q| && p[i].key == q[j].key && SameContent(p[i].value, q[j].value);
      assert sq[j] == m;
    }
    ValuesDistinct(before, p);
    SameMembers(sp, sq);
  }

  // ---- The loop ---------------------------------------------------------------------------------------------

  function MemberKeys(members: seq<Member>): (keys: seq<string>)
    ensures |keys| == |members| && forall i :: 0 <= i < |members| ==> keys[i] == members[i].key
  {
    seq(|members|, i requires 0 <= i < |members| => members[i].key)
  }

  function ValueAt(members: seq<Member>, key: string): (value: Json)
    requires exists m :: m in members && m.key == key
    ensures Member(key, value) in members
  {
    var last := members[|members| - 1];
    assert members == members[..|members| - 1] + [last];
    if last.key == key then last.value else ValueAt(members[..|members| - 1], key)
  }

  /** Sort the keys, then rebuild the object key by key. */
  method CanonicalForm(before: (string, string) -> bool, j: Json) returns (r: Json)
    requires Total(before) && WellFormed(j)
    ensures r == SortKeys(before, j)
    decreases j
  {
    match j {
      case Scalar(_) => r := j;
      case Array(items) =>
        var out: seq<Json> := [];
        for i := 0 to |items|
          invariant |out| == i && forall k :: 0 <= k < i ==> out[k] == SortKeys(before, items[k])
        {
          var item := CanonicalForm(before, items[i]);
          out := out + [item];
        }
        assert out == SortItems(before, items);
        r := Array(out);
      case Object(members) =>
        var keys := Sort(before, MemberKeys(members));
        var out: seq<Member> := [];
        for i := 0 to |keys|
          invariant |out| == i <= |keys|
          invariant forall k :: 0 <= k < i ==> Rebuilt(before, members, keys[k], out[k])
        {
          KeyIsListed(before, members, i);
          var value := ValueAt(members, keys[i]);
          var sorted := CanonicalForm(before, value);
          out := out + [Member(keys[i], sorted)];
        }
        RebuiltIsSorted(before, members, out);
        r := Object(out);
    }
  }

  predicate Rebuilt(before: (string, string) -> bool, members: seq<Member>, key: string, m: Member) {
    m.key == key && exists n :: n in members && n.key == key && m.value == SortKeys(before, n.value)
  }

  lemma KeyIsListed(before: (string, string) -> bool, members: seq<Member>, i: nat)
    requires i < |Sort(before, MemberKeys(members))| && WellFormed(Object(members))
    ensures var key := Sort(before, MemberKeys(members))[i];
            && (exists m :: m in members && m.key == key)
            && WellFormed(ValueAt(members, key)) && ValueAt(members, key) < Object(members)
  {
    var listed := MemberKeys(members);
    SortKeepsRows(before, listed);
    var key := Sort(before, listed)[i];
    assert key in multiset(Sort(before, listed)) && key in multiset(listed);
    var k :| 0 <= k < |listed| && listed[k] == key;
    assert members[k] in members && members[k].key == key;
    var m := Member(key, ValueAt(members, key));
    assert m in members;
    var n :| 0 <= n < |members| && members[n] == m;
  }

  lemma RebuiltIsSorted(before: (string, string) -> bool, members: seq<Member>, out: seq<Member>)
    requires Total(before) && DistinctKeys(members)
    requires var keys := Sort(before, MemberKeys(members));
             |out| == |keys| && forall k :: 0 <= k < |keys| ==> Rebuilt(before, members, keys[k], out[k])
    ensures out == Sort(ByKey(before), SortValues(before, members))
  {
    hide SortKeys, SortValues, WellFormed;
    var values := SortValues(before, members);
    RebuiltHasAll(before, members, out);
    ValuesDistinct(before, members);
    SameMembers(values, out);
    ByKeyIsStrictWeak(before);
    SortKeepsRows(ByKey(before), values);
    SortSorts(ByKey(before), values);
    RebuiltInOrder(before, members, out);
    assert Comparable(ByKey(before), values);
    SameRowsComparable(ByKey(before), values, out);
    SameRowsComparable(ByKey(before), values, Sort(ByKey(before), values));
    SortedOrderIsUnique(ByKey(before), out, Sort(ByKey(before), values));
  }

  lemma RebuiltInOrder(before: (string, string) -> bool, members: seq<Member>, out: seq<Member>)
    requires Total(before)
    requires var keys := Sort(before, MemberKeys(members));
             |out| == |keys| && forall k :: 0 <= k < |keys| ==> Rebuilt(before, members, keys[k], out[k])
    ensures Sorted(ByKey(before), out)
  {
    hide SortKeys;
    SortSorts(before, MemberKeys(members));
    assert forall k :: 0 <= k < |out| ==> out[k].key == Sort(before, MemberKeys(members))[k];
  }

  lemma RebuiltHasAll(before: (string, string) -> bool, members: seq<Member>, out: seq<Member>)
    requires DistinctKeys(members)
    requires var keys := Sort(before, MemberKeys(members));
             |out| == |keys| && forall k :: 0 <= k < |keys| ==> Rebuilt(before, members, keys[k], out[k])
    ensures |out| == |SortValues(before, members)|
    ensures forall m :: m in SortValues(before, members) ==> m in out
  {
    hide SortKeys, SortValues;
    var listed, values := MemberKeys(members), SortValues(before, members);
    var keys := Sort(before, listed);
    SortKeepsRows(before, listed);
    assert |multiset(keys)| == |keys| && |multiset(listed)| == |listed|;
    forall m | m in values ensures m in out {
      var i :| 0 <= i < |values| && values[i] == m;
      assert listed[i] in multiset(keys);
      var k :| 0 <= k < |keys| && keys[k] == listed[i];
      assert Rebuilt(before, members, keys[k], out[k]);
      var n :| n in members && n.key == keys[k] && out[k].value == SortKeys(before, n.value);
      var j :| 0 <= j < |members| && members[j] == n;
      assert j == i;
    }
  }

  // ---- What the hash leaves out ---------------------------------------------------------------------------

  /** They change on every compile, so hashing them would defeat the comparison. */
  const CONTENT_HASH_EXCLUDED: set<string> := {"policy_version", "issued_at", "not_before"}

  function Excluding(members: seq<Member>, keys: set<string>): seq<Member> {
    if members == [] then []
    else
      var front, last := Excluding(members[..|members| - 1], keys), members[|members| - 1];
      if last.key in keys then front else front + [last]
  }

  function Kept(members: seq<Member>): seq<Member> {
    Excluding(members, CONTENT_HASH_EXCLUDED)
  }

  /** The digest taken as injective, the hash is the canonical form of what is kept. */
  function ContentHash(before: (string, string) -> bool, document: seq<Member>): Json {
    SortKeys(before, Object(Kept(document)))
  }

  /** Copy the document, delete the three fields one after another, and canonicalise what is left. */
  method HashContent(before: (string, string) -> bool, document: seq<Member>) returns (hash: Json)
    requires Total(before) && WellFormed(Object(document))
    ensures hash == ContentHash(before, document)
  {
    var content := document;
    content := Excluding(content, {"policy_version"});
    content := Excluding(content, {"issued_at"});
    content := Excluding(content, {"not_before"});
    ExcludingTwice(document, {"policy_version"}, {"issued_at"});
    ExcludingTwice(document, {"policy_version"} + {"issued_at"}, {"not_before"});
    assert {"policy_version"} + {"issued_at"} + {"not_before"} == CONTENT_HASH_EXCLUDED;
    KeptMembers(document);
    hash := CanonicalForm(before, Object(content));
  }

  lemma {:induction false} ExcludingTwice(members: seq<Member>, keys: set<string>, more: set<string>)
    ensures Excluding(Excluding(members, keys), more) == Excluding(members, keys + more)
  {
    if members != [] {
      var front, last := members[..|members| - 1], members[|members| - 1];
      ExcludingTwice(front, keys, more);
      ExcludingNext(Excluding(front, keys), last, more);
    }
  }

  lemma ExcludingNext(members: seq<Member>, last: Member, keys: set<string>)
    ensures Excluding(members + [last], keys)
            == if last.key in keys then Excluding(members, keys) else Excluding(members, keys) + [last]
  {
    assert (members + [last])[..|members|] == members;
  }

  /** Both documents say the same under this key: nothing, or the same content. */
  ghost predicate AgreeOn(a: seq<Member>, b: seq<Member>, key: string) {
    && (forall m :: m in a && m.key == key ==> exists n :: n in b && n.key == key && SameContent(m.value, n.value))
    && (forall n :: n in b && n.key == key ==> exists m :: m in a && m.key == key)
  }

  lemma KeptMembers(members: seq<Member>)
    requires WellFormed(Object(members))
    ensures forall m :: m in Kept(members) <==> m in members && m.key !in CONTENT_HASH_EXCLUDED
    ensures WellFormed(Object(Kept(members)))
  {
    ExcludingMembers(members, CONTENT_HASH_EXCLUDED);
  }

  lemma {:induction false} ExcludingMembers(members: seq<Member>, keys: set<string>)
    requires WellFormed(Object(members))
    ensures forall m :: m in Excluding(members, keys) <==> m in members && m.key !in keys
    ensures WellFormed(Object(Excluding(members, keys)))
  {
    if members != [] {
      var front, last := members[..|members| - 1], members[|members| - 1];
      assert members == front + [last];
      assert forall i :: 0 <= i < |front| ==> front[i] == members[i];
      ExcludingMembers(front, keys);
      var kept := Excluding(front, keys);
      forall i | 0 <= i < |kept| ensures kept[i].key != last.key {
        assert kept[i] in front;
      }
    }
  }

  function KeysOf(members: seq<Member>): set<string> {
    set m | m in members :: m.key
  }

  lemma {:induction false} AsManyKeys(members: seq<Member>)
    requires DistinctKeys(members)
    ensures |KeysOf(members)| == |members|
  {
    if members != [] {
      var front, last := members[..|members| - 1], members[|members| - 1];
      assert members == front + [last];
      AsManyKeys(front);
      assert KeysOf(members) == KeysOf(front) + {last.key};
    }
  }

  lemma WithinAgrees(a: seq<Member>, b: seq<Member>)
    requires DistinctKeys(a) && DistinctKeys(b) && |a| == |b| && Within(a, b)
    ensures forall key :: AgreeOn(a, b, key)
  {
    hide SameContent;
    AsManyKeys(a);
    AsManyKeys(b);
    assert KeysOf(a) <= KeysOf(b);
    SameSizeSubset(KeysOf(a), KeysOf(b));
    forall m | m in a ensures exists n :: n in b && n.key == m.key && SameContent(m.value, n.value) {
      var i :| 0 <= i < |a| && a[i] == m;
      var j :| 0 <= j < |b| && a[i].key == b[j].key && SameContent(a[i].value, b[j].value);
      assert b[j] in b;
    }
    forall n | n in b ensures exists m :: m in a && m.key == n.key {
      assert n.key in KeysOf(a);
    }
  }

  lemma AgreeingWithin(a: seq<Member>, b: seq<Member>)
    requires DistinctKeys(a) && DistinctKeys(b) && forall key :: AgreeOn(a, b, key)
    ensures |a| == |b| && Within(a, b)
  {
    hide SameContent;
    AsManyKeys(a);
    AsManyKeys(b);
    forall i | 0 <= i < |a|
      ensures exists j :: 0 <= j < |b| && a[i].key == b[j].key && SameContent(a[i].value, b[j].value)
    {
      assert AgreeOn(a, b, a[i].key) && a[i] in a;
      var n :| n in b && n.key == a[i].key && SameContent(a[i].value, n.value);
      var j :| 0 <= j < |b| && b[j] == n;
    }
    forall key ensures key in KeysOf(a) <==> key in KeysOf(b) {
      assert AgreeOn(a, b, key);
    }
    assert KeysOf(a) == KeysOf(b);
  }

  lemma SameSizeSubset(s: set<string>, t: set<string>)
    requires s <= t && |s| == |t|
    ensures s == t
  {
    assert |t - s| == |t| - |s|;
    assert t == s + (t - s);
  }

  /**
    Two documents have one hash exactly when they agree on every key but the three left
    out, whatever order their keys come in and whatever those three say.
   */
  lemma HashIsTheContent(before: (string, string) -> bool, a: seq<Member>, b: seq<Member>)
    requires Total(before) && WellFormed(Object(a)) && WellFormed(Object(b))
    ensures ContentHash(before, a) == ContentHash(before, b)
            <==> forall key :: key !in CONTENT_HASH_EXCLUDED ==> AgreeOn(a, b, key)
  {
    hide Total, Kept, SortKeys;
    KeptMembers(a);
    KeptMembers(b);
    CanonicalExactly(before, Object(Kept(a)), Object(Kept(b)));
    if |Kept(a)| == |Kept(b)| && Within(Kept(a), Kept(b)) {
      WithinAgrees(Kept(a), Kept(b));
    }
    if forall key :: AgreeOn(Kept(a), Kept(b), key) {
      AgreeingWithin(Kept(a), Kept(b));
    }
    forall key
      ensures AgreeOn(Kept(a), Kept(b), key) <==> (key !in CONTENT_HASH_EXCLUDED ==> AgreeOn(a, b, key))
    {
      KeptAgreeOn(a, b, key);
    }
  }

  lemma KeptAgreeOn(a: seq<Member>, b: seq<Member>, key: string)
    requires WellFormed(Object(a)) && WellFormed(Object(b))
    ensures AgreeOn(Kept(a), Kept(b), key) <==> (key !in CONTENT_HASH_EXCLUDED ==> AgreeOn(a, b, key))
  {
    hide SameContent, WellFormed, Kept;
    KeptMembers(a);
    KeptMembers(b);
  }
}
