/**
  Compile output does not depend on the order rows come back from the database in.
 */
module RowOrder {
  import opened Basics
  import opened PolicyDocument
  import opened Sorting
  import opened Restriction
  import opened Compile

  // ---- Flattening forgets order up to multiset -------------------------------------------------------

  lemma {:induction false} FlatMapWithout<A, B>(f: A -> seq<B>, rows: seq<A>, i: nat)
    requires i < |rows|
    ensures multiset(FlatMap(f, rows))
            == multiset(FlatMap(f, rows[..i] + rows[i + 1..])) + multiset(f(rows[i]))
  {
    var rest := rows[..i] + rows[i + 1..];
    if i == |rows| - 1 {
      assert rest == rows[..i];
    } else {
      var front := rows[..|rows| - 1];
      FlatMapWithout(f, front, i);
      assert rest[..|rest| - 1] == front[..i] + front[i + 1..];
    }
  }

  lemma {:induction false} FlatMapRows<A, B>(f: A -> seq<B>, p: seq<A>, q: seq<A>)
    requires multiset(p) == multiset(q)
    ensures multiset(FlatMap(f, p)) == multiset(FlatMap(f, q))
  {
    if p == [] {
      assert |multiset(q)| == 0;
    } else {
      var front, last := p[..|p| - 1], p[|p| - 1];
      assert p == front + [last];
      assert last in multiset(q);
      var i :| 0 <= i < |q| && q[i] == last;
      PickedOut(q, i, front);
      FlatMapWithout(f, q, i);
      FlatMapRows(f, front, q[..i] + q[i + 1..]);
    }
  }

  lemma {:induction false} FlatMapPointwise<A, B>(f: A -> seq<B>, g: A -> seq<B>, rows: seq<A>)
    requires forall a :: a in rows ==> multiset(f(a)) == multiset(g(a))
    ensures multiset(FlatMap(f, rows)) == multiset(FlatMap(g, rows))
  {
    if rows != [] {
      var front, last := rows[..|rows| - 1], rows[|rows| - 1];
      assert rows == front + [last];
      FlatMapPointwise(f, g, front);
    }
  }

  lemma MappedRows<A, B>(f: A -> B, p: seq<A>, q: seq<A>)
    requires multiset(p) == multiset(q)
    ensures multiset(MapRows(f, p)) == multiset(MapRows(f, q))
  {
    FlatMapRows((a: A) => [f(a)], p, q);
  }

  lemma KeptRows<A>(keep: A -> bool, p: seq<A>, q: seq<A>)
    requires multiset(p) == multiset(q)
    ensures multiset(Keep(keep, p)) == multiset(Keep(keep, q))
  {
    FlatMapRows((a: A) => if keep(a) then [a] else [], p, q);
  }

  // ---- Rows with distinct keys ----------------------------------------------------------------------------

  predicate DistinctKeys(input: Input) {
    && (forall u, v :: u in input.windows && v in input.windows && u.id == v.id ==> u == v)
    && (forall e, f :: e in input.exceptions && f in input.exceptions && e.id == f.id ==> e == f)
    && (forall g, h :: g in input.grants && h in input.grants && g.id == h.id ==> g == h)
  }

  /** The same rows, in any order. */
  predicate SameRows(a: Input, b: Input) {
    && a.now == b.now && a.child == b.child
    && multiset(a.windows) == multiset(b.windows)
    && multiset(a.exceptions) == multiset(b.exceptions)
    && multiset(a.grants) == multiset(b.grants)
    && multiset(a.holidays) == multiset(b.holidays)
  }

  lemma SameMembers<T>(p: seq<T>, q: seq<T>)
    requires multiset(p) == multiset(q)
    ensures forall x :: x in p <==> x in q
  {
    forall x: T ensures x in p <==> x in q {
      assert x in multiset(p) <==> x in multiset(q);
    }
  }

  lemma SameWeekendStart(p: seq<WindowRow>, q: seq<WindowRow>)
    requires multiset(p) == multiset(q)
    ensures WeekendWindow(p).Some? == WeekendWindow(q).Some?
    ensures WeekendWindow(p).Some? ==> WeekendWindow(p).value.from == WeekendWindow(q).value.from
  {
    SameMembers(p, q);
  }

  lemma {:induction false} FindsById(windows: seq<WindowRow>, id: Id)
    ensures FindWindow(windows, id).None? <==> forall w :: w in windows ==> w.id != id
    ensures FindWindow(windows, id).Some? ==>
              FindWindow(windows, id).value in windows && FindWindow(windows, id).value.id == id
  {
    if windows != [] && windows[0].id != id {
      FindsById(windows[1..], id);
      assert windows == [windows[0]] + windows[1..];
    }
  }

  lemma SameFound(p: seq<WindowRow>, q: seq<WindowRow>, id: Id)
    requires multiset(p) == multiset(q)
    requires forall u, v :: u in p && v in p && u.id == v.id ==> u == v
    ensures FindWindow(p, id) == FindWindow(q, id)
  {
    SameMembers(p, q);
    FindsById(p, id);
    FindsById(q, id);
  }

  lemma SameWeekendDrafts(zone: ServerZone, p: seq<WindowRow>, q: seq<WindowRow>, date: Day, origin: Origin)
    requires multiset(p) == multiset(q)
    ensures multiset(WeekendDrafts(zone, p, date, origin)) == multiset(WeekendDrafts(zone, q, date, origin))
  {
    SameWeekendStart(p, q);
    if WeekendWindow(p).Some? {
      var start := WeekendWindow(p).value.from;
      FlatMapRows((w: WindowRow) => WeekendDraft(zone, w, date, start, origin), p, q);
    }
  }

  lemma DistinctWindows(input: Input)
    requires DistinctKeys(input)
    ensures forall u, v :: u in input.windows && v in input.windows && u.id == v.id ==> u == v
  {
  }

  lemma SameExceptionDrafts(zone: ServerZone, a: Input, b: Input, e: ExceptionRow)
    requires SameRows(a, b) && DistinctKeys(a)
    ensures multiset(ExceptionDrafts(zone, a.windows, e)) == multiset(ExceptionDrafts(zone, b.windows, e))
  {
    hide WeekendDrafts, DistinctKeys;
    if e.windowId.Some? {
      assert forall u, v :: u in a.windows && v in a.windows && u.id == v.id ==> u == v by {
        DistinctWindows(a);
      }
      SameFound(a.windows, b.windows, e.windowId.value);
    }
    SameWeekendDrafts(zone, a.windows, b.windows, e.day, ByException(e.id));
  }

  lemma SameHolidayDrafts(zone: ServerZone, a: Input, b: Input, date: Day)
    requires SameRows(a, b)
    ensures multiset(HolidayDrafts(zone, a, date)) == multiset(HolidayDrafts(zone, b, date))
  {
    SameMembers(a.exceptions, b.exceptions);
    SameWeekendDrafts(zone, a.windows, b.windows, date, ByHoliday(a.child));
  }

  lemma SameExceptionsInHorizon(zone: ServerZone, a: Input, b: Input)
    requires SameRows(a, b) && DistinctKeys(a)
    ensures multiset(ExceptionsInHorizon(zone, a)) == multiset(ExceptionsInHorizon(zone, b))
  {
    var f := (e: ExceptionRow) =>
        if InHorizon(zone.dayOf(a.now), e.day) then ExceptionDrafts(zone, a.windows, e) else [];
    var g := (e: ExceptionRow) =>
        if InHorizon(zone.dayOf(b.now), e.day) then ExceptionDrafts(zone, b.windows, e) else [];
    forall e: ExceptionRow ensures multiset(f(e)) == multiset(g(e)) {
      SameExceptionDrafts(zone, a, b, e);
    }
    FlatMapPointwise(f, g, a.exceptions);
    FlatMapRows(g, a.exceptions, b.exceptions);
  }

  lemma SameHolidays(zone: ServerZone, a: Input, b: Input)
    requires SameRows(a, b)
    ensures multiset(FlatMap((d: Day) => HolidayDrafts(zone, a, d), a.holidays))
            == multiset(FlatMap((d: Day) => HolidayDrafts(zone, b, d), b.holidays))
  {
    var f, g := (d: Day) => HolidayDrafts(zone, a, d), (d: Day) => HolidayDrafts(zone, b, d);
    forall d: Day ensures multiset(f(d)) == multiset(g(d)) {
      SameHolidayDrafts(zone, a, b, d);
    }
    FlatMapPointwise(f, g, a.holidays);
    FlatMapRows(g, a.holidays, b.holidays);
  }

  lemma SameLiveDrafts(zone: ServerZone, a: Input, b: Input)
    requires SameRows(a, b) && DistinctKeys(a)
    ensures multiset(LiveDrafts(zone, a)) == multiset(LiveDrafts(zone, b))
  {
    SameExceptionsInHorizon(zone, a, b);
    SameHolidays(zone, a, b);
    MappedRows(GrantOverride, a.grants, b.grants);
    hide ExceptionsInHorizon, FlatMap, MapRows, Keep;
    assert multiset(Drafts(zone, a)) == multiset(Drafts(zone, b));
    KeptRows((o: Override) => o.expiresAt > a.now, Drafts(zone, a), Drafts(zone, b));
  }

  // ---- Ids name drafts ------------------------------------------------------------------------------------

  lemma WeekendIdsName(zone: ServerZone, windows: seq<WindowRow>, date: Day, origin: Origin, o: Override, p: Override)
    requires forall u, v :: u in windows && v in windows && u.id == v.id ==> u == v
    requires o in WeekendDrafts(zone, windows, date, origin) && p in WeekendDrafts(zone, windows, date, origin)
    requires o.id == p.id
    ensures o == p
  {
    var u := WeekendDraftSource(zone, windows, date, origin, o);
    var v := WeekendDraftSource(zone, windows, date, origin, p);
    assert [o] == [p];
  }

  lemma ExceptionDraftId(zone: ServerZone, windows: seq<WindowRow>, e: ExceptionRow, o: Override)
    requires o in ExceptionDrafts(zone, windows, e)
    ensures o.id.FromException? && o.id.exception == e.id
  {
    if e.effect.TreatAsWeekend? {
      var target := if e.windowId.Some? then FindWindow(windows, e.windowId.value) else None;
      var w := WeekendDraftSource(
        zone, if target.Some? then [target.value] else windows, e.day, ByException(e.id), o);
    }
  }

  lemma ExceptionIdsName(zone: ServerZone, windows: seq<WindowRow>, e: ExceptionRow, o: Override, p: Override)
    requires forall u, v :: u in windows && v in windows && u.id == v.id ==> u == v
    requires o in ExceptionDrafts(zone, windows, e) && p in ExceptionDrafts(zone, windows, e) && o.id == p.id
    ensures o == p
  {
    if e.effect.TreatAsWeekend? {
      var target := if e.windowId.Some? then FindWindow(windows, e.windowId.value) else None;
      WeekendIdsName(zone, if target.Some? then [target.value] else windows, e.day, ByException(e.id), o, p);
    }
  }

  /** Where a draft came from. */
  lemma ProvenanceId(zone: ServerZone, input: Input, o: Override, from: Provenance)
    requires CameFrom(zone, input, o, from)
    ensures match from
            case OfGrant(g) => o.id == Granted(g.id)
            case OfException(e) => o.id.FromException? && o.id.exception == e.id
            case OfHoliday(d) => o.id.FromHoliday? && o.id.date == d
  {
    match from {
      case OfGrant(_) =>
      case OfException(e) => ExceptionDraftId(zone, input.windows, e, o);
      case OfHoliday(d) =>
        var w := WeekendDraftSource(zone, input.windows, d, ByHoliday(input.child), o);
    }
  }

  /** No two different drafts share an id. */
  lemma IdsNameDrafts(zone: ServerZone, input: Input, o: Override, p: Override)
    requires DistinctKeys(input)
    requires o in Drafts(zone, input) && p in Drafts(zone, input) && o.id == p.id
    ensures o == p
  {
    var from := DraftProvenance(zone, input, o);
    var also := DraftProvenance(zone, input, p);
    ProvenanceId(zone, input, o, from);
    ProvenanceId(zone, input, p, also);
    match from {
      case OfGrant(g) =>
      case OfException(e) => ExceptionIdsName(zone, input.windows, e, o, p);
      case OfHoliday(d) => WeekendIdsName(zone, input.windows, d, ByHoliday(input.child), o, p);
    }
  }

  // ---- The theorem ----------------------------------------------------------------------------------------

  /** A strict total order on ids: what comparing their text gives. */
  ghost predicate TotalOnIds(idBefore: (OverrideId, OverrideId) -> bool) {
    StrictWeak(idBefore) && forall a, b :: a != b ==> idBefore(a, b) || idBefore(b, a)
  }

  lemma OverrideOrder(idBefore: (OverrideId, OverrideId) -> bool)
    requires TotalOnIds(idBefore)
    ensures StrictWeak((a: Override, b: Override) => OverrideBefore(idBefore, a, b))
    ensures forall a: Override, b: Override :: a.id != b.id ==>
              OverrideBefore(idBefore, a, b) || OverrideBefore(idBefore, b, a)
  {
    forall a: Override, b: Override | OverrideBefore(idBefore, a, b) ensures !OverrideBefore(idBefore, b, a) {
    }
    forall a: Override, b: Override, c: Override | OverrideBefore(idBefore, a, c)
      ensures OverrideBefore(idBefore, a, b) || OverrideBefore(idBefore, b, c)
    {
    }
  }

  /**
    The document's overrides are the drafts alive at the compile, each as often, those of an
    earlier date first and those of one date by their ids.
   */
  lemma CompiledOverridesExactly(idBefore: (OverrideId, OverrideId) -> bool, zone: ServerZone, input: Input)
    requires TotalOnIds(idBefore)
    ensures var overrides := Compiled(idBefore, zone, input).overrides;
            && multiset(overrides) == multiset(LiveDrafts(zone, input))
            && (forall o :: o in overrides <==> o in Drafts(zone, input) && input.now < o.expiresAt)
            && (forall i, j :: 0 <= i < j < |overrides| ==>
                  && overrides[i].effectiveDate.Some? && overrides[j].effectiveDate.Some?
                  && overrides[i].effectiveDate.value <= overrides[j].effectiveDate.value
                  && (overrides[i].effectiveDate == overrides[j].effectiveDate ==>
                        !idBefore(overrides[j].id, overrides[i].id)))
  {
    hide LiveDrafts, Drafts;
    var before := (o: Override, p: Override) => OverrideBefore(idBefore, o, p);
    var live, overrides := LiveDrafts(zone, input), Compiled(idBefore, zone, input).overrides;
    OverrideOrder(idBefore);
    SortKeepsRows(before, live);
    SortSorts(before, live);
    forall o: Override ensures o in overrides <==> o in Drafts(zone, input) && input.now < o.expiresAt {
      CompiledOverride(idBefore, zone, input, o);
    }
    forall i | 0 <= i < |overrides| ensures overrides[i].effectiveDate.Some? {
      assert overrides[i] in overrides;
      var from := DraftProvenance(zone, input, overrides[i]);
      DraftDate(zone, input, overrides[i], from);
    }
    hide Compiled, OverrideBefore;
    forall i, j | 0 <= i < j < |overrides|
      ensures overrides[i].effectiveDate.value <= overrides[j].effectiveDate.value
      ensures overrides[i].effectiveDate == overrides[j].effectiveDate ==> !idBefore(overrides[j].id, overrides[i].id)
    {
      assert !before(overrides[j], overrides[i]);
      NotBefore(idBefore, overrides[j], overrides[i]);
    }
  }

  lemma NotBefore(idBefore: (OverrideId, OverrideId) -> bool, a: Override, b: Override)
    requires a.effectiveDate.Some? && b.effectiveDate.Some? && !OverrideBefore(idBefore, a, b)
    ensures b.effectiveDate.value <= a.effectiveDate.value
    ensures b.effectiveDate == a.effectiveDate ==> !idBefore(a.id, b.id)
  {
  }

  /** Any permutation of the window, grant, exception and holiday rows compiles to the same document. */
  lemma CompileIgnoresRowOrder(
      idBefore: (OverrideId, OverrideId) -> bool, zone: ServerZone, a: Input, b: Input)
    requires TotalOnIds(idBefore) && SameRows(a, b) && DistinctKeys(a)
    ensures Compiled(idBefore, zone, a) == Compiled(idBefore, zone, b)
  {
    var before := (o: Override, p: Override) => OverrideBefore(idBefore, o, p);
    OverrideOrder(idBefore);
    SameLiveDrafts(zone, a, b);
    var live := LiveDrafts(zone, a);
    forall o, p | o in live && p in live && o != p ensures before(o, p) || before(p, o) {
      KeepMembers((o: Override) => o.expiresAt > a.now, Drafts(zone, a), o);
      KeepMembers((o: Override) => o.expiresAt > a.now, Drafts(zone, a), p);
      if o.id == p.id {
        IdsNameDrafts(zone, a, o, p);
      }
    }
    SortIgnoresRowOrder(before, live, LiveDrafts(zone, b));
    SortIgnoresRowOrder(RowBefore, a.windows, b.windows);
  }

  // ---- Warnings within a window ---------------------------------------------------------------------------

  /** The same window row, its warnings in any order, no two with one lead. */
  predicate SameButWarnings(u: WindowRow, v: WindowRow) {
    && u.(warnings := []) == v.(warnings := [])
    && multiset(u.warnings) == multiset(v.warnings)
    && forall x, y :: x in u.warnings && y in u.warnings && x.leadMinutes == y.leadMinutes ==> x == y
  }

  predicate AllSameButWarnings(p: seq<WindowRow>, q: seq<WindowRow>) {
    |p| == |q| && forall i :: 0 <= i < |p| ==> SameButWarnings(p[i], q[i])
  }

  lemma SameCompiledWindow(u: WindowRow, v: WindowRow)
    requires SameButWarnings(u, v)
    ensures ToWindow(u) == ToWindow(v)
  {
    SortIgnoresRowOrder((a: Warning, b: Warning) => b.leadMinutes < a.leadMinutes, u.warnings, v.warnings);
  }

  lemma {:induction false} InsertedAlike(p: seq<WindowRow>, q: seq<WindowRow>, u: WindowRow, v: WindowRow)
    requires AllSameButWarnings(p, q) && SameButWarnings(u, v)
    ensures AllSameButWarnings(Insert(RowBefore, p, u), Insert(RowBefore, q, v))
  {
    if p != [] && RowBefore(u, p[|p| - 1]) {
      InsertedAlike(p[..|p| - 1], q[..|q| - 1], u, v);
    }
  }

  lemma {:induction false} SortedAlike(p: seq<WindowRow>, q: seq<WindowRow>)
    requires AllSameButWarnings(p, q)
    ensures AllSameButWarnings(Sort(RowBefore, p), Sort(RowBefore, q))
  {
    if p != [] {
      SortedAlike(p[..|p| - 1], q[..|q| - 1]);
      InsertedAlike(Sort(RowBefore, p[..|p| - 1]), Sort(RowBefore, q[..|q| - 1]), p[|p| - 1], q[|q| - 1]);
    }
  }

  lemma {:induction false} MappedAlike(p: seq<WindowRow>, q: seq<WindowRow>)
    requires AllSameButWarnings(p, q)
    ensures MapRows(ToWindow, p) == MapRows(ToWindow, q)
  {
    if p != [] {
      MappedAlike(p[..|p| - 1], q[..|q| - 1]);
      SameCompiledWindow(p[|p| - 1], q[|q| - 1]);
    }
  }

  /** The compiled schedule does not depend on the order of warning rows either. */
  lemma ScheduleIgnoresWarningOrder(p: seq<WindowRow>, q: seq<WindowRow>)
    requires AllSameButWarnings(p, q)
    ensures MapRows(ToWindow, Sort(RowBefore, p)) == MapRows(ToWindow, Sort(RowBefore, q))
  {
    SortedAlike(p, q);
    MappedAlike(Sort(RowBefore, p), Sort(RowBefore, q));
  }

  // ---- Warnings in the whole document ---------------------------------------------------------------------

  /** Same rows but for the order of each window's warnings. */
  predicate SameInputButWarnings(a: Input, b: Input) {
    a.(windows := []) == b.(windows := []) && AllSameButWarnings(a.windows, b.windows)
  }

  lemma {:induction false} WeekendAlike(p: seq<WindowRow>, q: seq<WindowRow>)
    requires AllSameButWarnings(p, q)
    ensures match (WeekendWindow(p), WeekendWindow(q))
            case (None, None) => true
            case (Some(u), Some(v)) => SameButWarnings(u, v)
            case _ => false
  {
    if p != [] {
      WeekendAlike(p[..|p| - 1], q[..|q| - 1]);
    }
  }

  lemma DraftAlike(zone: ServerZone, u: WindowRow, v: WindowRow, date: Day, start: Minute, origin: Origin)
    requires SameButWarnings(u, v)
    ensures WeekendDraft(zone, u, date, start, origin) == WeekendDraft(zone, v, date, start, origin)
  {
  }

  lemma {:induction false} DraftsAlike(
      zone: ServerZone, p: seq<WindowRow>, q: seq<WindowRow>, date: Day, start: Minute, origin: Origin)
    requires AllSameButWarnings(p, q)
    ensures var draft := (w: WindowRow) => WeekendDraft(zone, w, date, start, origin);
            FlatMap(draft, p) == FlatMap(draft, q)
  {
    hide WeekendDraft, SameButWarnings;
    if p != [] {
      DraftAlike(zone, p[|p| - 1], q[|q| - 1], date, start, origin);
      DraftsAlike(zone, p[..|p| - 1], q[..|q| - 1], date, start, origin);
    }
  }

  lemma WeekendDraftsAlike(zone: ServerZone, p: seq<WindowRow>, q: seq<WindowRow>, date: Day, origin: Origin)
    requires AllSameButWarnings(p, q)
    ensures WeekendDrafts(zone, p, date, origin) == WeekendDrafts(zone, q, date, origin)
  {
    WeekendAlike(p, q);
    if WeekendWindow(p).Some? {
      DraftsAlike(zone, p, q, date, WeekendWindow(p).value.from, origin);
    }
  }

  lemma {:induction false} FoundAlike(p: seq<WindowRow>, q: seq<WindowRow>, id: Id)
    requires AllSameButWarnings(p, q)
    ensures match (FindWindow(p, id), FindWindow(q, id))
            case (None, None) => true
            case (Some(u), Some(v)) => SameButWarnings(u, v)
            case _ => false
    decreases |p|
  {
    if p != [] && p[0].id != id {
      FoundAlike(p[1..], q[1..], id);
    }
  }

  lemma ExpiryAlike(zone: ServerZone, p: seq<WindowRow>, q: seq<WindowRow>, e: ExceptionRow)
    requires AllSameButWarnings(p, q)
    ensures ExceptionExpiry(zone, p, e) == ExceptionExpiry(zone, q, e)
  {
    hide FindWindow, AllSameButWarnings;
    if e.windowId.Some? {
      FoundAlike(p, q, e.windowId.value);
    }
  }

  lemma TargetAlike(zone: ServerZone, p: seq<WindowRow>, q: seq<WindowRow>, id: Id, date: Day, origin: Origin)
    requires AllSameButWarnings(p, q) && FindWindow(p, id).Some?
    ensures FindWindow(q, id).Some?
    ensures WeekendDrafts(zone, [FindWindow(p, id).value], date, origin)
            == WeekendDrafts(zone, [FindWindow(q, id).value], date, origin)
  {
    hide WeekendDrafts, FindWindow;
    FoundAlike(p, q, id);
    WeekendDraftsAlike(zone, [FindWindow(p, id).value], [FindWindow(q, id).value], date, origin);
  }

  lemma ExceptionDraftsAlike(zone: ServerZone, p: seq<WindowRow>, q: seq<WindowRow>, e: ExceptionRow)
    requires AllSameButWarnings(p, q)
    ensures ExceptionDrafts(zone, p, e) == ExceptionDrafts(zone, q, e)
  {
    hide WeekendDrafts, FindWindow, ExceptionExpiry, AllSameButWarnings;
    ExpiryAlike(zone, p, q, e);
    WeekendDraftsAlike(zone, p, q, e.day, ByException(e.id));
    if e.windowId.Some? {
      FoundAlike(p, q, e.windowId.value);
      if FindWindow(p, e.windowId.value).Some? {
        TargetAlike(zone, p, q, e.windowId.value, e.day, ByException(e.id));
      }
    }
  }

  lemma {:induction false} FlatMapAlike<A, B>(f: A -> seq<B>, g: A -> seq<B>, rows: seq<A>)
    requires forall a :: a in rows ==> f(a) == g(a)
    ensures FlatMap(f, rows) == FlatMap(g, rows)
  {
    if rows != [] {
      var front, last := rows[..|rows| - 1], rows[|rows| - 1];
      assert rows == front + [last];
      FlatMapAlike(f, g, front);
    }
  }

  lemma SynthesisedAlike(zone: ServerZone, a: Input, b: Input)
    requires SameInputButWarnings(a, b)
    ensures Synthesised(zone, a) == Synthesised(zone, b)
  {
    hide WeekendDrafts, ExceptionDrafts, AllSameButWarnings;
    var today := zone.dayOf(a.now);
    var exceptionsOf := (e: ExceptionRow) =>
        if InHorizon(zone.dayOf(a.now), e.day) then ExceptionDrafts(zone, a.windows, e) else [];
    var exceptionsOf' := (e: ExceptionRow) =>
        if InHorizon(zone.dayOf(b.now), e.day) then ExceptionDrafts(zone, b.windows, e) else [];
    forall e | e in a.exceptions ensures exceptionsOf(e) == exceptionsOf'(e) {
      ExceptionDraftsAlike(zone, a.windows, b.windows, e);
    }
    FlatMapAlike(exceptionsOf, exceptionsOf', a.exceptions);
    var holidaysOf, holidaysOf' := (d: Day) => HolidayDrafts(zone, a, d), (d: Day) => HolidayDrafts(zone, b, d);
    forall d | d in a.holidays ensures holidaysOf(d) == holidaysOf'(d) {
      WeekendDraftsAlike(zone, a.windows, b.windows, d, ByHoliday(a.child));
    }
    FlatMapAlike(holidaysOf, holidaysOf', a.holidays);
  }

  /** Nor does the compiled document, overrides included. */
  lemma CompileIgnoresWarningOrder(
      idBefore: (OverrideId, OverrideId) -> bool, zone: ServerZone, a: Input, b: Input)
    requires SameInputButWarnings(a, b)
    ensures Compiled(idBefore, zone, a) == Compiled(idBefore, zone, b)
  {
    hide Synthesised, AllSameButWarnings;
    SynthesisedAlike(zone, a, b);
    ScheduleIgnoresWarningOrder(a.windows, b.windows);
  }

  /** Any order of any rows: permuted tables, and each window's warnings permuted as well. */
  ghost predicate SameRowsAnyOrder(a: Input, b: Input) {
    exists mid :: SameRows(a, mid) && SameInputButWarnings(mid, b)
  }

  lemma CompileIgnoresAllOrder(
      idBefore: (OverrideId, OverrideId) -> bool, zone: ServerZone, a: Input, b: Input)
    requires TotalOnIds(idBefore) && DistinctKeys(a) && SameRowsAnyOrder(a, b)
    ensures Compiled(idBefore, zone, a) == Compiled(idBefore, zone, b)
  {
    hide Compiled, DistinctKeys, TotalOnIds, SameRows, SameInputButWarnings;
    var mid :| SameRows(a, mid) && SameInputButWarnings(mid, b);
    CompileIgnoresRowOrder(idBefore, zone, a, mid);
    CompileIgnoresWarningOrder(idBefore, zone, mid, b);
  }
}
