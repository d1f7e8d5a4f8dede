/** The list and count queries: one event per key, ordered by key. */
module Listing {
  import opened Keys
  import opened Table
  import opened History
  import opened Runs
  import opened Snapshots
  import opened Queries

  // ---------------------------------------------------------------- ORDER BY name

  /** The larger of a new name and the largest so far. */
  lemma LargerStays(rest: set<string>, m: string, x: string)
    requires forall y :: y in rest ==> AtMost(y, m)
    ensures forall y :: y in rest + {x} ==> AtMost(y, if Less(m, x) then x else m)
  {
    hide Less;
    LessTotal(x, m);
    if Less(m, x) {
      forall y | y in rest ensures AtMost(y, x) {
        if y != m { LessTotal(y, m); LessTransitive(y, m, x); }
      }
    }
  }

  predicate Largest(s: set<string>, m: string) {
    m in s && forall x :: x in s ==> AtMost(x, m)
  }

  lemma {:induction false} MaxNameExists(s: set<string>)
    requires s != {}
    ensures exists m :: Largest(s, m)
    decreases |s|
  {
    hide Less, AtMost;
    var x :| x in s;
    var rest := s - {x};
    assert s == rest + {x};
    if rest == {} {
      ItselfAtMost(x);
      assert Largest(s, x);
    } else {
      MaxNameExists(rest);
      var m :| Largest(rest, m);
      LargerStays(rest, m, x);
      assert Largest(s, if Less(m, x) then x else m);
    }
  }

  lemma ItselfAtMost(x: string)
    ensures AtMost(x, x)
  {
  }

  lemma MaxNameDetermined(s: set<string>)
    ensures forall a, b :: Largest(s, a) && Largest(s, b) ==> a == b
  {
    hide Less;
    forall a, b | Largest(s, a) && Largest(s, b) ensures a == b { LessTotal(a, b); }
  }

  function MaxName(s: set<string>): (m: string)
    requires s != {}
    ensures m in s && forall x :: x in s ==> AtMost(x, m)
  {
    MaxNameExists(s);
    MaxNameDetermined(s);
    var m :| Largest(s, m);
    m
  }

  function SortNames(s: set<string>): (q: seq<string>)
    ensures forall x :: x in q <==> x in s
    decreases |s|
  {
    if s == {} then []
    else
      var m := MaxName(s);
      var rest := SortNames(s - {m});
      assert forall x :: x in rest + [m] <==> x in rest || x == m;
      rest + [m]
  }

  lemma {:induction false} SortNamesSorts(s: set<string>)
    ensures var q := SortNames(s); forall i, j :: 0 <= i < j < |q| ==> Less(q[i], q[j])
    ensures |SortNames(s)| == |s|
    decreases |s|
  {
    hide Less, MaxName;
    if s != {} {
      var m := MaxName(s);
      SortNamesSorts(s - {m});
      var rest := SortNames(s - {m});
      assert forall i :: 0 <= i < |rest| ==> rest[i] in s - {m};
    }
  }

  function Above(s: set<string>, k: string): set<string> {
    set n | n in s && Less(k, n)
  }

  lemma SortNamesSnoc(s: set<string>)
    requires s != {}
    ensures SortNames(s) == SortNames(s - {MaxName(s)}) + [MaxName(s)]
  {
  }

  lemma SortNamesEmpty()
    ensures SortNames({}) == []
  {
  }

  /** Restarting after the p-th name yields the rest of the listing. */
  lemma {:induction false} SuffixAfter(s: set<string>, p: nat)
    requires p < |SortNames(s)|
    ensures SortNames(Above(s, SortNames(s)[p])) == SortNames(s)[p + 1..]
    decreases |s|
  {
    hide Less, MaxName, SortNames;
    SortNamesEmpty();
    SortNamesSnoc(s);
    var q, m := SortNames(s), MaxName(s);
    var t := s - {m};
    var rest := SortNames(t);
    var above := Above(s, q[p]);
    if p == |rest| {
      forall n | n in s ensures !Less(m, n) { LessTotal(m, n); }
      assert above == {};
    } else {
      SuffixAfter(t, p);
      assert rest[p] in t;
      assert above - {m} == Above(t, q[p]);
      MaxUnique(above, m);
      SortNamesSnoc(above);
    }
  }

  lemma MaxUnique(s: set<string>, m: string)
    requires m in s && forall x :: x in s ==> AtMost(x, m)
    ensures MaxName(s) == m
  {
    hide Less;
    LessTotal(m, MaxName(s));
  }

  function Upto(s: set<string>, k: string): set<string> {
    s - Above(s, k)
  }

  /** Sorting the names up to a key, then those above it, sorts them all. */
  lemma {:induction false} SortNamesSplit(s: set<string>, k: string)
    ensures SortNames(s) == SortNames(Upto(s, k)) + SortNames(Above(s, k))
    decreases |s|
  {
    hide Less, MaxName, SortNames;
    SortNamesEmpty();
    if s != {} {
      var m := MaxName(s);
      var t := s - {m};
      SortNamesSnoc(s);
      if Less(k, m) {
        SortNamesSplit(t, k);
        assert Upto(s, k) == Upto(t, k) && Above(s, k) - {m} == Above(t, k);
        MaxUnique(Above(s, k), m);
        SortNamesSnoc(Above(s, k));
      } else {
        NothingAbove(s, k);
        assert Upto(s, k) == s;
      }
    } else {
      assert Upto(s, k) == {} && Above(s, k) == {};
    }
  }

  lemma NothingAbove(s: set<string>, k: string)
    requires s != {} && !Less(k, MaxName(s))
    ensures Above(s, k) == {}
  {
    hide Less, MaxName;
    forall n | n in s ensures !Less(k, n) {
      if Less(k, n) && n != MaxName(s) { LessTransitive(k, n, MaxName(s)); }
    }
  }

  // ---------------------------------------------------------------- the queries

  /** The event ListCurrent shows for a name: no bound on the id. */
  function VisibleNow(rows: Rows, name: string): Option<Event> {
    var m := Latest(rows, name);
    if m == 0 || m !in rows || rows[m].deleted then None else Some(Scan(m, rows[m]))
  }

  function Names(rows: Rows): set<string> {
    set i | i in rows :: rows[i].name
  }

  function Shown(rows: Rows, start: string, end: string, r: nat): set<string> {
    set n | n in Names(rows) && InRange(n, start, end) && VisibleAt(rows, n, r).Some?
  }

  function EventsAt(rows: Rows, names: seq<string>, r: nat): (events: seq<Event>)
    requires forall n :: n in names ==> VisibleAt(rows, n, r).Some?
    ensures |events| == |names|
    ensures forall k :: 0 <= k < |names| ==> events[k] == VisibleAt(rows, names[k], r).value
  {
    seq(|names|, k requires 0 <= k < |names| => VisibleAt(rows, names[k], r).value)
  }

  /** listSQL with `id <= r`: one event per key of the range, ordered by key. */
  function ListSql(rows: Rows, start: string, end: string, r: nat): seq<Event> {
    EventsAt(rows, SortNames(Shown(rows, start, end, r)), r)
  }

  function ShownNow(rows: Rows, start: string, end: string): set<string> {
    set n | n in Names(rows) && InRange(n, start, end) && VisibleNow(rows, n).Some?
  }

  /** listSQL without a bound on the id. */
  function ListCurrentSql(rows: Rows, start: string, end: string): (events: seq<Event>)
  {
    var names := SortNames(ShownNow(rows, start, end));
    seq(|names|, k requires 0 <= k < |names| => assert names[k] in names; VisibleNow(rows, names[k]).value)
  }

  /** The rows the count queries join: the newest of each name of the range, if it is no tombstone. */
  function CountedIds(rows: Rows, start: string, end: string, r: nat): set<nat> {
    set i | i in rows && InRange(rows[i].name, start, end) && LatestAt(rows, rows[i].name, r) == i && i > 0
            && !rows[i].deleted
  }

  function CountedIdsNow(rows: Rows, start: string, end: string): set<nat> {
    set i | i in rows && InRange(rows[i].name, start, end) && Latest(rows, rows[i].name) == i && i > 0
            && !rows[i].deleted
  }

  /** The ids of some rows in the order of the rows' names, then of the ids. */
  function OrderedByName(rows: Rows, ids: set<nat>, names: seq<string>): (q: seq<nat>)
    requires ids <= rows.Keys
    ensures forall i :: i in q ==> i in ids
    decreases |names|
  {
    if names == [] then []
    else
      var last := names[|names| - 1];
      var group := set i | i in ids && rows[i].name == last;
      OrderedByName(rows, ids, names[..|names| - 1]) + OrderedBetween(group, 0, MaxOf(group))
  }

  /** revisionAfterSQL: the join is a query of its own, ordered by name and id outside it. */
  function RevisionAfterSql(rows: Rows, start: string, end: string, r: nat): seq<Event> {
    var lkv := CountedIds(rows, start, end, r);
    Scanned(rows, OrderedByName(rows, lkv, SortNames(set i | i in lkv :: rows[i].name)))
  }

  /** Where the range begins: at the prefix, or strictly after the start key. */
  function RangeStart(prefix: string, startKey: string): string {
    if startKey == "" then GetPrefixRange(prefix).0 else startKey + [ONE]
  }

  /** Generic.List: another statement when there is a start key. */
  function ListRevision(rows: Rows, prefix: string, startKey: string, limit: nat, r: nat): (events: seq<Event>)
    ensures events == Limit(ListSql(rows, RangeStart(prefix, startKey), GetPrefixRange(prefix).1, r), limit)
  {
    var end := GetPrefixRange(prefix).1;
    RevisionAfterIsList(rows, RangeStart(prefix, startKey), end, r);
    if startKey == "" then Limit(ListSql(rows, RangeStart(prefix, startKey), end, r), limit)
    else Limit(RevisionAfterSql(rows, RangeStart(prefix, startKey), end, r), limit)
  }

  function ListCurrent(rows: Rows, prefix: string, startKey: string, limit: nat): seq<Event> {
    Limit(ListCurrentSql(rows, RangeStart(prefix, startKey), GetPrefixRange(prefix).1), limit)
  }

  /** COUNT over the rows of the join. */
  function CountRevision(rows: Rows, prefix: string, startKey: string, r: nat): (n: nat)
    ensures n == |ListSql(rows, RangeStart(prefix, startKey), GetPrefixRange(prefix).1, r)|
  {
    CountIsLength(rows, RangeStart(prefix, startKey), GetPrefixRange(prefix).1, r);
    |CountedIds(rows, RangeStart(prefix, startKey), GetPrefixRange(prefix).1, r)|
  }

  function CountCurrent(rows: Rows, prefix: string, startKey: string): nat {
    |CountedIdsNow(rows, RangeStart(prefix, startKey), GetPrefixRange(prefix).1)|
  }

  // ---------------------------------------------------------------- the statements agree

  lemma CountedAreShown(rows: Rows, start: string, end: string, r: nat)
    ensures var ids, shown := CountedIds(rows, start, end, r), Shown(rows, start, end, r);
            && (set i | i in ids :: rows[i].name) == shown
            && (forall i, j :: i in ids && j in ids && rows[i].name == rows[j].name ==> i == j)
            && (forall n :: n in shown ==> LatestAt(rows, n, r) in ids && rows[LatestAt(rows, n, r)].name == n)
  {
    hide InRange;
    var ids, shown := CountedIds(rows, start, end, r), Shown(rows, start, end, r);
    forall n | n in shown
      ensures LatestAt(rows, n, r) in ids && rows[LatestAt(rows, n, r)].name == n
    {
    }
    assert (set i | i in ids :: rows[i].name) == shown;
  }

  /** Rows and names in one-to-one correspondence are equally many. */
  lemma {:induction false} NamesCount(rows: Rows, ids: set<nat>, names: set<string>)
    requires forall i :: i in ids ==> i in rows && rows[i].name in names
    requires forall n :: n in names ==> exists i :: i in ids && rows[i].name == n
    requires forall i, j :: i in ids && j in ids && rows[i].name == rows[j].name ==> i == j
    ensures |ids| == |names|
    decreases |ids|
  {
    if ids == {} {
      assert names == {};
    } else {
      var i :| i in ids;
      var ids', names' := ids - {i}, names - {rows[i].name};
      forall n | n in names'
        ensures exists j :: j in ids' && rows[j].name == n
      {
        var j :| j in ids && rows[j].name == n;
        assert j in ids';
      }
      NamesCount(rows, ids', names');
    }
  }

  /** The count query counts what the list query lists. */
  lemma CountIsLength(rows: Rows, start: string, end: string, r: nat)
    ensures |CountedIds(rows, start, end, r)| == |ListSql(rows, start, end, r)|
  {
    hide Shown, CountedIds;
    CountedAreShown(rows, start, end, r);
    var ids, shown := CountedIds(rows, start, end, r), Shown(rows, start, end, r);
    CountedIdsAreRows(rows, start, end, r);
    forall i | i in ids ensures rows[i].name in shown {
      assert rows[i].name in (set j | j in ids :: rows[j].name);
    }
    forall n | n in shown ensures exists i :: i in ids && rows[i].name == n {
      assert LatestAt(rows, n, r) in ids;
    }
    NamesCount(rows, ids, shown);
    SortNamesSorts(shown);
  }

  lemma CountedIdsAreRows(rows: Rows, start: string, end: string, r: nat)
    ensures CountedIds(rows, start, end, r) <= rows.Keys
    ensures forall i :: i in CountedIds(rows, start, end, r) ==> i > 0 && LatestAt(rows, rows[i].name, r) == i
  {
  }

  lemma OneOfGroup(rows: Rows, ids: set<nat>, i: nat)
    requires ids <= rows.Keys && i in ids && i > 0
    requires forall j :: j in ids && rows[j].name == rows[i].name ==> j == i
    ensures var group := set j | j in ids && rows[j].name == rows[i].name;
            OrderedBetween(group, 0, MaxOf(group)) == [i]
  {
    var group := set j | j in ids && rows[j].name == rows[i].name;
    assert group == {i};
    assert MaxOf(group) in group;
    OrderedSingleton(i, i);
  }

  lemma OrderedByNameSnoc(rows: Rows, ids: set<nat>, names: seq<string>, i: nat)
    requires ids <= rows.Keys && i in ids && i > 0
    requires names != [] && names[|names| - 1] == rows[i].name
    requires forall j :: j in ids && rows[j].name == rows[i].name ==> j == i
    ensures OrderedByName(rows, ids, names) == OrderedByName(rows, ids, names[..|names| - 1]) + [i]
  {
    OneOfGroup(rows, ids, i);
  }

  lemma EventsAtSnoc(rows: Rows, names: seq<string>, r: nat)
    requires names != [] && forall n :: n in names ==> VisibleAt(rows, n, r).Some?
    ensures var last := names[|names| - 1];
            EventsAt(rows, names, r) == EventsAt(rows, names[..|names| - 1], r) + [VisibleAt(rows, last, r).value]
  {
    hide VisibleAt;
    assert names[|names| - 1] in names;
  }

  /** Ordering rows that are the newest of their names gives their events in the order of the names. */
  lemma {:induction false} OrderedIsEventsAt(rows: Rows, ids: set<nat>, names: seq<string>, r: nat)
    requires ids <= rows.Keys
    requires forall n :: n in names ==> VisibleAt(rows, n, r).Some?
    requires forall n :: n in names ==> LatestAt(rows, n, r) in ids && rows[LatestAt(rows, n, r)].name == n
    requires forall i, j :: i in ids && j in ids && rows[i].name == rows[j].name ==> i == j
    ensures Scanned(rows, OrderedByName(rows, ids, names)) == EventsAt(rows, names, r)
    decreases |names|
  {
    hide VisibleAt, OrderedByName, EventsAt, Scanned;
    if names == [] {
      NothingOrdered(rows, ids, r);
    } else {
      var init, last := names[..|names| - 1], names[|names| - 1];
      assert last in names;
      OrderedIsEventsAt(rows, ids, init, r);
      var i := LatestAt(rows, last, r);
      ShownAtLatest(rows, last, r);
      OrderedByNameSnoc(rows, ids, names, i);
      ScannedSnoc(rows, OrderedByName(rows, ids, init), i);
      EventsAtSnoc(rows, names, r);
    }
  }

  lemma NothingOrdered(rows: Rows, ids: set<nat>, r: nat)
    requires ids <= rows.Keys
    ensures Scanned(rows, OrderedByName(rows, ids, [])) == EventsAt(rows, [], r)
  {
  }

  lemma ShownAtLatest(rows: Rows, name: string, r: nat)
    requires VisibleAt(rows, name, r).Some?
    ensures var i := LatestAt(rows, name, r); i > 0 && i in rows && VisibleAt(rows, name, r).value == Scan(i, rows[i])
  {
  }

  /** The two statements for a listing at a revision are the same query. */
  lemma RevisionAfterIsList(rows: Rows, start: string, end: string, r: nat)
    ensures RevisionAfterSql(rows, start, end, r) == ListSql(rows, start, end, r)
  {
    hide CountedIds, OrderedByName, VisibleAt, SortNames;
    CountedAreShown(rows, start, end, r);
    CountedIdsAreRows(rows, start, end, r);
    var names := SortNames(Shown(rows, start, end, r));
    OrderedIsEventsAt(rows, CountedIds(rows, start, end, r), names, r);
  }

  // ---------------------------------------------------------------- the query forms agree

  lemma VisibleNowIsAtMax(rows: Rows, name: string)
    requires 0 !in rows
    ensures VisibleNow(rows, name) == VisibleAt(rows, name, MaxOf(rows.Keys))
  {
    var m, t := Latest(rows, name), LatestAt(rows, name, MaxOf(rows.Keys));
    assert IdsOf(rows, name) != {} ==> m in IdsOf(rows, name);
    assert t != 0 ==> t in IdsOf(rows, name);
  }

  lemma CountedNow(rows: Rows, start: string, end: string)
    ensures CountedIdsNow(rows, start, end) == CountedIds(rows, start, end, MaxOf(rows.Keys))
  {
    hide InRange;
    forall i | i in rows ensures Latest(rows, rows[i].name) == LatestAt(rows, rows[i].name, MaxOf(rows.Keys)) {
      LatestIsAtMax(rows, rows[i].name);
    }
  }

  lemma LatestIsAtMax(rows: Rows, name: string)
    ensures Latest(rows, name) == LatestAt(rows, name, MaxOf(rows.Keys))
  {
    var t := LatestAt(rows, name, MaxOf(rows.Keys));
    assert IdsOf(rows, name) != {} ==> Latest(rows, name) in IdsOf(rows, name);
    assert t != 0 ==> t in IdsOf(rows, name);
  }

  /** Listing the present is listing at the newest revision, and counting counts the listing. */
  lemma CurrentIsNewestRevision(rows: Rows, prefix: string, startKey: string, limit: nat)
    requires 0 !in rows
    ensures ListCurrent(rows, prefix, startKey, limit) == ListRevision(rows, prefix, startKey, limit, MaxOf(rows.Keys))
    ensures CountCurrent(rows, prefix, startKey) == CountRevision(rows, prefix, startKey, MaxOf(rows.Keys))
  {
    hide VisibleNow, VisibleAt, SortNames;
    var r, start, end := MaxOf(rows.Keys), RangeStart(prefix, startKey), GetPrefixRange(prefix).1;
    forall n ensures VisibleNow(rows, n) == VisibleAt(rows, n, r) { VisibleNowIsAtMax(rows, n); }
    assert ShownNow(rows, start, end) == Shown(rows, start, end, r);
    assert ListCurrentSql(rows, start, end) == ListSql(rows, start, end, r);
    assert CountedIdsNow(rows, start, end) == CountedIds(rows, start, end, r) by { CountedNow(rows, start, end); }
  }

  lemma VisibleIsNamed(rows: Rows, name: string, r: nat)
    requires VisibleAt(rows, name, r).Some?
    ensures name in Names(rows) && VisibleAt(rows, name, r).value.kv.key == name
  {
    assert rows[LatestAt(rows, name, r)].name == name;
  }

  /** Two row sets that show the same events at their revisions list the same. */
  lemma SameEventsSameList(a: Rows, b: Rows, start: string, end: string, r: nat, r': nat)
    requires forall n :: VisibleAt(a, n, r) == VisibleAt(b, n, r')
    ensures Shown(a, start, end, r) == Shown(b, start, end, r')
    ensures ListSql(a, start, end, r) == ListSql(b, start, end, r')
  {
    hide VisibleAt, SortNames, InRange, Names;
    forall n | VisibleAt(a, n, r).Some? ensures n in Names(a) && n in Names(b) {
      VisibleIsNamed(a, n, r);
      VisibleIsNamed(b, n, r');
    }
    assert Shown(a, start, end, r) == Shown(b, start, end, r');
  }

  /** A List whose compact-revision check passes afterwards is the history's listing. */
  lemma ListIsHistory(w: World, w': World, start: string, end: string, r: nat)
    requires Inv(w) && Inv(w') && Later(w, w')
    requires w'.Compacted() <= r <= w.db.lastId
    ensures ListSql(w.db.rows, start, end, r) == ListSql(w'.hist, start, end, r)
    ensures Shown(w.db.rows, start, end, r) == Shown(w'.hist, start, end, r)
  {
    hide Inv, Later, VisibleAt;
    forall n ensures VisibleAt(w.db.rows, n, r) == VisibleAt(w'.hist, n, r) { CheckAfterRead(w, w', n, r); }
    SameEventsSameList(w.db.rows, w'.hist, start, end, r, r);
  }
}
