/** The range handler beside etcd's range, nobody else acting: which requests they answer alike. */
module EtcdRanges {
  import opened Keys
  import opened Table
  import opened History
  import opened Runs
  import opened Snapshots
  import opened Queries
  import opened Listing
  import opened Pagination
  import opened Backend
  import opened Ranges
  import opened Txns
  import opened Driver

  const QUIET: seq<seq<Step>> := [[], [], [], [], [], [], [], []]

  lemma {:induction false} QuietWorlds(w: World, k: nat)
    requires k <= RANGE_GAPS
    ensures WorldAt(w, QUIET, k) == w
    decreases k
  {
    if k > 0 {
      QuietWorlds(w, k - 1);
      NothingRun(w);
    }
  }

  // ---------------------------------------------------------------- refusals

  /** Lists and counts are refused where etcd refuses them, if and only if the store is not empty and the revision is
    not in the future, and for counts also not compacted; on the empty store counts are refused alike at any
    revision that is given. */
  lemma RefusalsAgree(w: World, r: RangeRequest)
    requires Inv(w) && r.rangeEnd != ""
    ensures RangeAnswer(w, QUIET, r).Err? ==>
              RangeAnswer(w, QUIET, r) == Err(if w.db.lastId == 0 then NoRevision else Refused(Compacted))
    ensures (RangeAnswer(w, QUIET, r).Err? <==> !Runnable(w, Range(r)))
       <==> if r.countOnly then
              (if w.db.lastId == 0 then r.revision > 0
               else r.revision == 0 || w.Compacted() <= r.revision <= w.db.lastId)
            else
              w.db.lastId > 0 && r.revision <= w.db.lastId
  {
    hide Inv, CountRevision, EntriesAt, DerivedPrefix, TrimNul, MaxId, CompactRevision, WorldAt;
    var prefix, start := DerivedPrefix(r.rangeEnd), TrimNul(r.key);
    EmptyStore(w);
    if r.countOnly {
      CountRefusal(w, QUIET, prefix, start, r.revision);
    } else {
      ListRefusal(w, r, prefix, start);
    }
  }

  lemma CountRefusal(w: World, others: seq<seq<Step>>, prefix: string, start: string, revision: nat)
    requires Inv(w) && others == QUIET
    ensures CountAnswer(w, others, prefix, start, revision).Err? <==> w.db.lastId == 0
    ensures w.db.lastId == 0 ==> CountAnswer(w, others, prefix, start, revision) == Err(NoRevision)
  {
    hide Inv, EntriesAt, WorldAt, MaxId, CompactRevision;
    QuietWorlds(w, 1);
    QuietWorlds(w, 2);
    QuietWorlds(w, 3);
    EmptyStore(w);
    if w.db.rows == map[] { NothingCounted(prefix, start, if revision == 0 then MaxId(w.db) else revision); }
  }

  lemma NothingCounted(prefix: string, start: string, r: nat)
    ensures CountRevision(map[], prefix, start, r) == 0
  {
    assert CountedIds(map[], RangeStart(prefix, start), GetPrefixRange(prefix).1, r) == {};
  }

  lemma ListRefusal(w: World, r: RangeRequest, prefix: string, start: string)
    requires Inv(w) && r.rangeEnd != "" && !r.countOnly
    requires prefix == DerivedPrefix(r.rangeEnd) && start == TrimNul(r.key)
    ensures RangeAnswer(w, QUIET, r).Err? <==> (0 < r.revision < w.Compacted() || (r.revision == 0 && w.db.lastId == 0))
    ensures 0 < r.revision < w.Compacted() ==> RangeAnswer(w, QUIET, r) == Err(Refused(Compacted))
    ensures r.revision == 0 && w.db.lastId == 0 ==> RangeAnswer(w, QUIET, r) == Err(NoRevision)
  {
    hide Inv, EntriesAt, DerivedPrefix, TrimNul, MaxId, CompactRevision, CountAnswer;
    var limit := if r.limit > 0 then r.limit + 1 else 0;
    EmptyStore(w);
    QuietWorlds(w, LIST_GAPS + 1);
    QuietList(w, prefix, start, limit, r.revision);
    var listed := ListAnswer(w, QUIET[..LIST_GAPS], prefix, start, limit, r.revision);
    if listed.Ok? && r.limit > 0 && |listed.value.1| > r.limit {
      SomethingThere(w, prefix, start, limit, r.revision);
      CountRefusalTail(w, prefix, start, if r.revision == 0 then listed.value.0 else r.revision);
    }
  }

  lemma QuietList(w: World, prefix: string, start: string, limit: nat, revision: nat)
    requires Inv(w)
    ensures var at := if revision == 0 then w.db.lastId else revision;
            ListAnswer(w, QUIET[..LIST_GAPS], prefix, start, limit, revision)
            == if 0 < revision < w.Compacted() then Err(Refused(Compacted))
               else if revision == 0 && w.db.lastId == 0 then Err(NoRevision)
               else Ok((at, EntriesAt(w.db.rows, prefix, start, limit, at)))
  {
    hide Inv, EntriesAt, MaxId, CompactRevision, WorldAt;
    EmptyStore(w);
    FirstWorld(w, QUIET);
    assert QUIET[0..LIST_GAPS] == QUIET[..LIST_GAPS];
    QuietWorlds(w, 1);
    QuietWorlds(w, 2);
    QuietWorlds(w, 3);
    QuietWorlds(w, 4);
    WorldAtSlice(w, QUIET, 0, LIST_GAPS, 1);
    WorldAtSlice(w, QUIET, 0, LIST_GAPS, 2);
    WorldAtSlice(w, QUIET, 0, LIST_GAPS, 3);
    WorldAtSlice(w, QUIET, 0, LIST_GAPS, 4);
    if w.db.rows == map[] { NothingEntered(prefix, start, limit, MaxId(w.db)); }
  }

  lemma NothingEntered(prefix: string, start: string, limit: nat, r: nat)
    ensures EntriesAt(map[], prefix, start, limit, r) == []
  {
    hide EffectiveStart;
    var first := RangeStart(prefix, EffectiveStart(prefix, start));
    assert Shown(map[], first, GetPrefixRange(prefix).1, r) == {};
    SortNamesEmpty();
  }

  lemma SomethingThere(w: World, prefix: string, start: string, limit: nat, revision: nat)
    requires Inv(w) && ListAnswer(w, QUIET[..LIST_GAPS], prefix, start, limit, revision).Ok?
    requires ListAnswer(w, QUIET[..LIST_GAPS], prefix, start, limit, revision).value.1 != []
    ensures w.db.lastId > 0
  {
    hide Inv, EntriesAt, ListAnswer;
    QuietList(w, prefix, start, limit, revision);
    EmptyStore(w);
    NothingEntered(prefix, start, limit, if revision == 0 then w.db.lastId else revision);
  }

  lemma CountRefusalTail(w: World, prefix: string, start: string, at: nat)
    requires Inv(w) && w.db.lastId > 0
    ensures CountAnswer(w, QUIET[LIST_GAPS + 1..], prefix, start, at).Ok?
  {
    hide Inv, EntriesAt, WorldAt, MaxId, CompactRevision, CountRevision;
    var k := LIST_GAPS + 1;
    assert QUIET[k..RANGE_GAPS] == QUIET[k..];
    QuietWorlds(w, k);
    QuietWorlds(w, k + 1);
    QuietWorlds(w, k + 2);
    QuietWorlds(w, k + 3);
    WorldAtSlice(w, QUIET, k, RANGE_GAPS, 1);
    WorldAtSlice(w, QUIET, k, RANGE_GAPS, 2);
    WorldAtSlice(w, QUIET, k, RANGE_GAPS, 3);
    EmptyStore(w);
  }

  // ---------------------------------------------------------------- answers at a revision

  /** The keys the handler lists. */
  function ListedNames(w: World, r: RangeRequest): set<string>
    requires r.rangeEnd != ""
  {
    var prefix := DerivedPrefix(r.rangeEnd);
    Shown(w.hist, RangeStart(prefix, EffectiveStart(prefix, TrimNul(r.key))), GetPrefixRange(prefix).1, r.revision)
  }

  /** The keys it counts when there are more than it may show. */
  function CountedNames(w: World, r: RangeRequest): set<string>
    requires r.rangeEnd != ""
  {
    Countable(w, r, r.revision)
  }

  /** The keys etcd finds. */
  function FoundNames(w: World, r: RangeRequest): set<string> {
    LiveIn(w, r.key, r.rangeEnd, r.revision)
  }

  function NumberOf(w: World, r: RangeRequest): nat
    requires r.rangeEnd != ""
  {
    if 0 < r.limit < |ListedNames(w, r)| then |CountedNames(w, r)| else |ListedNames(w, r)|
  }

  ghost predicate Plain(w: World, r: RangeRequest) {
    r.rangeEnd != "" && !r.countOnly && !r.keysOnly && r.revision > 0 && w.Compacted() <= r.revision <= w.db.lastId
  }

  function KvsAt(rows: Rows, names: seq<string>, r: nat): seq<KeyValue>
    requires forall n :: n in names ==> VisibleAt(rows, n, r).Some?
  {
    Kvs(EventsAt(rows, names, r))
  }

  lemma LimitOfKvs(rows: Rows, names: seq<string>, r: nat, limit: nat)
    requires forall n :: n in names ==> VisibleAt(rows, n, r).Some?
    ensures |KvsAt(rows, names, r)| == |names|
    ensures Limit(KvsAt(rows, names, r), limit) == KvsAt(rows, Limit(names, limit), r)
  {
    hide VisibleAt;
  }

  lemma SameNames(rows: Rows, a: seq<string>, b: seq<string>, r: nat)
    requires forall n :: n in a || n in b ==> VisibleAt(rows, n, r).Some?
    ensures KvsAt(rows, a, r) == KvsAt(rows, b, r) <==> a == b
  {
    hide VisibleAt;
    forall n | n in a || n in b ensures VisibleAt(rows, n, r).value.kv.key == n { VisibleIsNamed(rows, n, r); }
    if KvsAt(rows, a, r) == KvsAt(rows, b, r) {
      assert |a| == |KvsAt(rows, a, r)| == |KvsAt(rows, b, r)| == |b|;
      forall k | 0 <= k < |a| ensures a[k] == b[k] {
        assert a[k] in a && b[k] in b;
        assert KvsAt(rows, a, r)[k].key == a[k] && KvsAt(rows, b, r)[k].key == b[k];
      }
    }
  }

  lemma ShownAreVisible(rows: Rows, start: string, end: string, r: nat)
    ensures forall n :: n in SortNames(Shown(rows, start, end, r)) ==> VisibleAt(rows, n, r).Some?
  {
    hide SortNames, VisibleAt, InRange, Names;
  }

  lemma EtcdShows(w: World, r: RangeRequest)
    requires Plain(w, r)
    ensures forall n :: n in SortNames(FoundNames(w, r)) ==> VisibleAt(w.hist, n, r.revision).Some?
    ensures var found := KvsAt(w.hist, SortNames(FoundNames(w, r)), r.revision);
            EtcdRange(w, r) == RangeDone(w.db.lastId, Limit(found, r.limit), 0 < r.limit < |found|, |found|)
  {
    hide VisibleAt, SortNames, LiveIn, CompactRevision;
    LiveAreVisible(w, r.key, r.rangeEnd, r.revision);
  }

  lemma RowsShow(w: World, prefix: string, start: string, r: nat)
    requires Inv(w) && w.Compacted() <= r
    ensures ListSql(w.db.rows, RangeStart(prefix, start), GetPrefixRange(prefix).1, r)
         == ListSql(w.hist, RangeStart(prefix, start), GetPrefixRange(prefix).1, r)
  {
    hide Inv, VisibleAt, CompactRevision;
    forall n ensures VisibleAt(w.db.rows, n, r) == VisibleAt(w.hist, n, r) { VisibleFromCompacted(w, n, r); }
    SameEventsSameList(w.db.rows, w.hist, RangeStart(prefix, start), GetPrefixRange(prefix).1, r, r);
  }

  lemma HandlerShows(w: World, r: RangeRequest)
    requires Inv(w) && Plain(w, r)
    ensures forall n :: n in SortNames(ListedNames(w, r)) ==> VisibleAt(w.hist, n, r.revision).Some?
    ensures var listed := KvsAt(w.hist, SortNames(ListedNames(w, r)), r.revision);
            && RangeAnswer(w, QUIET, r).Ok?
            && RangeAnswer(w, QUIET, r).value.kvs == Limit(listed, r.limit)
            && RangeAnswer(w, QUIET, r).value.more == (0 < r.limit < |listed|)
            && RangeAnswer(w, QUIET, r).value.count == NumberOf(w, r)
            && |listed| == |ListedNames(w, r)|
  {
    hide Inv, VisibleAt, SortNames, DerivedPrefix, TrimNul, RangeAnswer, CountRevision, ListRevision, RangeStart,
         EffectiveStart,
         PageOf, Shown, Kvs, CompactRevision, Limit, GetPrefixRange;
    var prefix, start := DerivedPrefix(r.rangeEnd), TrimNul(r.key);
    var first, end := RangeStart(prefix, EffectiveStart(prefix, start)), GetPrefixRange(prefix).1;
    ShownAreVisible(w.hist, first, end, r.revision);
    SortNamesSorts(ListedNames(w, r));
    LimitOfKvs(w.hist, SortNames(ListedNames(w, r)), r.revision, r.limit);
    RowsShow(w, prefix, EffectiveStart(prefix, start), r.revision);
    RowsShow(w, prefix, start, r.revision);
    QuietWorlds(w, 1);
    QuietWorlds(w, LIST_GAPS + 1);
    CountsNames(w, prefix, start, r.revision);
    if r.limit == 0 {
      WholeAnswer(w, r);
      NoLimit(KvsAt(w.hist, SortNames(ListedNames(w, r)), r.revision));
    } else {
      AnswerIsPage(w, QUIET, r);
      PageIsCut(w.db.rows, prefix, start, r.limit, r.revision);
      TableNamesNulFree(w);
      if PageOf(w.db.rows, prefix, start, r.limit, r.revision).more {
        MoreCounts(w.db.rows, prefix, start, r.limit, r.revision);
      }
    }
  }

  lemma NoLimit<T>(q: seq<T>)
    ensures Limit(q, 0) == q
  {
  }

  lemma CountsNames(w: World, prefix: string, start: string, r: nat)
    requires Inv(w) && w.Compacted() <= r
    ensures CountRevision(w.db.rows, prefix, start, r)
         == |Shown(w.hist, RangeStart(prefix, start), GetPrefixRange(prefix).1, r)|
  {
    hide Inv, VisibleAt, SortNames, RangeStart, GetPrefixRange, CompactRevision, CountRevision, Shown;
    RowsShow(w, prefix, start, r);
    SortNamesSorts(Shown(w.hist, RangeStart(prefix, start), GetPrefixRange(prefix).1, r));
  }

  lemma WholeAnswer(w: World, r: RangeRequest)
    requires Inv(w) && Plain(w, r) && r.limit == 0
    ensures var prefix, start := DerivedPrefix(r.rangeEnd), TrimNul(r.key);
            var (first, end) := (RangeStart(prefix, EffectiveStart(prefix, start)), GetPrefixRange(prefix).1);
            var all := Kvs(ListSql(w.db.rows, first, end, r.revision));
            RangeAnswer(w, QUIET, r) == Ok(RangeResponse(r.revision, all, false, |all|))
  {
    hide Inv, DerivedPrefix, TrimNul, ListRevision, RangeStart, EffectiveStart, ListSql, CompactRevision, ListAnswer,
         CountAnswer;
    QuietWorlds(w, 1);
    ListsThePage(w, QUIET, DerivedPrefix(r.rangeEnd), TrimNul(r.key), 0, r.revision);
  }

  lemma PageIsCut(rows: Rows, prefix: string, start: string, limit: nat, r: nat)
    requires limit > 0
    ensures var all := ListSql(rows, RangeStart(prefix, EffectiveStart(prefix, start)), GetPrefixRange(prefix).1, r);
            var page := PageOf(rows, prefix, start, limit, r);
            && page.more == (limit < |all|)
            && Kvs(page.events) == Limit(Kvs(all), limit)
            && |page.events| == if limit < |all| then limit else |all|
  {
    hide ListSql, RangeStart, EffectiveStart, CountRevision;
    var all := ListSql(rows, RangeStart(prefix, EffectiveStart(prefix, start)), GetPrefixRange(prefix).1, r);
    LimitOfLimit(all, limit);
    if limit < |all| { KvsSlice(all, limit); }
  }

  /** At a revision both can answer: the entries are etcd's if and only if the first keys there is room for
    are; the flag is if as many or as few are too many; the count is if the handler counts as many keys as
    etcd finds. */
  lemma RangeIsEtcd(w: World, r: RangeRequest)
    requires Inv(w) && Plain(w, r)
    ensures RangeAnswer(w, QUIET, r).Ok?
    ensures var resp, done := RangeAnswer(w, QUIET, r).value, EtcdRange(w, r);
            var listed, found := ListedNames(w, r), FoundNames(w, r);
            && (resp.kvs == done.kvs <==> Limit(SortNames(listed), r.limit) == Limit(SortNames(found), r.limit))
            && (resp.more == done.more <==> (0 < r.limit < |listed| <==> 0 < r.limit < |found|))
            && (resp.count == done.count <==> NumberOf(w, r) == |found|)
  {
    hide Inv, VisibleAt, SortNames, RangeAnswer, EtcdRange, ListedNames, FoundNames, KvsAt, Limit, NumberOf,
         CompactRevision;
    HandlerShows(w, r);
    EtcdShows(w, r);
    var a, b := SortNames(ListedNames(w, r)), SortNames(FoundNames(w, r));
    SortNamesSorts(ListedNames(w, r));
    SortNamesSorts(FoundNames(w, r));
    LimitOfKvs(w.hist, a, r.revision, r.limit);
    LimitOfKvs(w.hist, b, r.revision, r.limit);
    SameNames(w.hist, Limit(a, r.limit), Limit(b, r.limit), r.revision);
  }

  /** Entries, flag and count are all etcd's. */
  ghost predicate Alike(w: World, r: RangeRequest) {
    RangeAnswer(w, QUIET, r).Ok? && EtcdRange(w, r).RangeDone?
    && var resp, done := RangeAnswer(w, QUIET, r).value, EtcdRange(w, r);
       resp.kvs == done.kvs && resp.more == done.more && resp.count == done.count
  }

  lemma AlikeIs(w: World, r: RangeRequest)
    requires Inv(w) && Plain(w, r)
    ensures var listed, found := ListedNames(w, r), FoundNames(w, r);
            && RangeAnswer(w, QUIET, r).Ok?
            && RangeAnswer(w, QUIET, r).value.more == (0 < r.limit < |listed|)
            && (Alike(w, r) <==> Limit(SortNames(listed), r.limit) == Limit(SortNames(found), r.limit)
                                 && (0 < r.limit < |listed| <==> 0 < r.limit < |found|) && NumberOf(w, r) == |found|)
  {
    hide Inv, SortNames, RangeAnswer, EtcdRange, ListedNames, FoundNames, KvsAt, Limit, NumberOf, CompactRevision;
    HandlerShows(w, r);
    EtcdShows(w, r);
    RangeIsEtcd(w, r);
  }

  // ---------------------------------------------------------------- counts at a revision

  ghost predicate PlainCount(w: World, r: RangeRequest) {
    r.rangeEnd != "" && r.countOnly && r.revision > 0 && w.Compacted() <= r.revision <= w.db.lastId
  }

  /** The number a count is answered with: of the keys after the start, or if there are none of the whole
    directory now, up to a thousand. */
  function CountedNumber(w: World, r: RangeRequest): nat
    requires r.rangeEnd != ""
  {
    if CountedNames(w, r) != {} then |CountedNames(w, r)| else Min(1000, |Directory(w, r, w.db.lastId)|)
  }

  lemma QuietIsInterleaved(w: World)
    ensures Interleaved(w, QUIET)
  {
    assert forall k :: 0 <= k < |QUIET| ==> QUIET[k] == [];
  }

  lemma CountShows(w: World, r: RangeRequest)
    requires Inv(w) && PlainCount(w, r)
    ensures RangeAnswer(w, QUIET, r) == Ok(RangeResponse(w.db.lastId, [], false, CountedNumber(w, r)))
  {
    hide Inv, RangeAnswer, DerivedPrefix, TrimNul, CountRevision, CompactRevision, WorldAt, Interleaved, Shown, AllKept,
         ListSql;
    QuietIsInterleaved(w);
    QuietWorlds(w, 1);
    QuietWorlds(w, 3);
    CountIsAnswered(w, QUIET, r);
    EmptyStore(w);
    if CountedNames(w, r) == {} { ZeroIsRecounted(w, QUIET, r); }
  }

  /** A count is etcd's if and only if what is counted are as many keys as etcd finds; its revision always is. */
  lemma CountIsEtcd(w: World, r: RangeRequest)
    requires Inv(w) && PlainCount(w, r)
    ensures RangeAnswer(w, QUIET, r).Ok? && EtcdRange(w, r).RangeDone?
    ensures var resp, done := RangeAnswer(w, QUIET, r).value, EtcdRange(w, r);
            && resp.rev == done.rev && resp.kvs == done.kvs == [] && resp.more == done.more == false
            && (resp.count == done.count <==> CountedNumber(w, r) == |FoundNames(w, r)|)
  {
    hide Inv, RangeAnswer, CompactRevision, CountedNames, SortNames, LiveIn;
    CountShows(w, r);
    LiveAreVisible(w, r.key, r.rangeEnd, r.revision);
    SortNamesSorts(FoundNames(w, r));
  }

  // ---------------------------------------------------------------- the requests of clients

  /** Clients list a directory from its start, or go on after a key k of it. */
  function ClientRequest(prefix: string, after: Option<string>, limit: nat, r: nat): RangeRequest {
    RangeRequest(match after { case None => prefix case Some(k) => k + [NUL] },
                 GetPrefixRange(prefix).1, limit, r, false, false)
  }

  lemma {:induction false} NulIsNext(k: string, n: string)
    ensures AtMost(k + [NUL], n) <==> Less(k, n)
    decreases |k|
  {
    if k == [] {
      assert k + [NUL] == [NUL];
      if n != [] {
        assert n == [n[0]] + n[1..];
        assert [NUL][1..] == [] && (n[1..] == [] || Less([], n[1..]));
      }
    } else if n != [] {
      NulIsNext(k[1..], n[1..]);
      assert (k + [NUL])[1..] == k[1..] + [NUL];
      assert n == [n[0]] + n[1..];
      if k[0] == n[0] && k[1..] + [NUL] == n[1..] { assert k + [NUL] == n; }
    }
  }

  /** What the two look for. */
  lemma ClientNames(w: World, prefix: string, after: Option<string>, limit: nat, r: nat)
    requires Inv(w) && EndsWithSlash(prefix) && NulFree(prefix)
    requires after.Some? ==> NulFree(after.value) && prefix <= after.value
    ensures var req := ClientRequest(prefix, after, limit, r);
            var all := Shown(w.hist, prefix, GetPrefixRange(prefix).1, r);
            && req.rangeEnd != "" && DerivedPrefix(req.rangeEnd) == prefix
            && match after
               case None =>
                 ListedNames(w, req) == FoundNames(w, req) == all && CountedNames(w, req) == Above(all, prefix)
               case Some(k) =>
                 && FoundNames(w, req) == CountedNames(w, req) == Above(all, k)
                 && ListedNames(w, req) == if k == prefix then all else Above(all, k)
  {
    hide Inv, VisibleAt, Names, DerivedPrefix, TrimNul, Less, NulFree;
    var (start, end) := GetPrefixRange(prefix);
    var req := ClientRequest(prefix, after, limit, r);
    PrefixIsRecovered(prefix);
    assert end[|end| - 1] == '0';
    HistoryNamesNulFree(w);
    ContinuationIsRecovered(prefix);
    ShownAfter(w.hist, start, end, prefix, r);
    if after.Some? {
      var k := after.value;
      ContinuationIsRecovered(k);
      PrefixIsAtMost(prefix, k);
      ShownAfter(w.hist, start, end, k, r);
      forall n
        ensures AtMost(k + [NUL], n) <==> Less(k, n)
        ensures Less(k, n) ==> AtMost(start, n)
      {
        NulIsNext(k, n);
        if Less(k, n) && start != k { LessTransitive(start, k, n); }
      }
    }
  }

  lemma {:induction false} PrefixIsAtMost(p: string, k: string)
    requires p <= k
    ensures AtMost(p, k)
    decreases |p|
  {
    if p != [] && p != k {
      PrefixIsAtMost(p[1..], k[1..]);
      assert p == [p[0]] + p[1..] && k == [k[0]] + k[1..];
    }
  }

  /** On the requests clients send, entries, flag and count are all etcd's if and only if the directory is not itself a
    key - or it is, and the request begins with it and has room for all there is, or goes on after another key. */
  lemma ClientRangeIsEtcd(w: World, prefix: string, after: Option<string>, limit: nat, r: nat)
    requires Inv(w) && EndsWithSlash(prefix) && NulFree(prefix) && r > 0 && w.Compacted() <= r <= w.db.lastId
    requires after.Some? ==> NulFree(after.value) && prefix <= after.value
    ensures RangeAnswer(w, QUIET, ClientRequest(prefix, after, limit, r)).Ok?
    ensures var req := ClientRequest(prefix, after, limit, r);
            var more := RangeAnswer(w, QUIET, req).value.more;
            Alike(w, req)
            <==> VisibleAt(w.hist, prefix, r).None? || (if after.None? then !more else after.value != prefix)
  {
    hide Inv, VisibleAt, SortNames, RangeAnswer, Alike, Limit, ListedNames, FoundNames, CountedNames, DerivedPrefix,
         CompactRevision, Less;
    var req := ClientRequest(prefix, after, limit, r);
    var all := Shown(w.hist, prefix, GetPrefixRange(prefix).1, r);
    ClientNames(w, prefix, after, limit, r);
    AlikeIs(w, req);
    WithoutPrefix(w.hist, prefix, r);
    if VisibleAt(w.hist, prefix, r).None? {
      assert Above(all, prefix) == all;
      assert ListedNames(w, req) == FoundNames(w, req) == CountedNames(w, req);
    } else if after == Some(prefix) {
      FirstDiffers(all, prefix, limit);
    } else {
      assert ListedNames(w, req) == FoundNames(w, req);
      assert after.Some? ==> CountedNames(w, req) == FoundNames(w, req);
      assert after.None? ==> |CountedNames(w, req)| == |FoundNames(w, req)| - 1;
    }
  }

  /** The keys after the prefix itself. */
  lemma WithoutPrefix(rows: Rows, prefix: string, r: nat)
    requires EndsWithSlash(prefix)
    ensures var all := Shown(rows, prefix, GetPrefixRange(prefix).1, r);
            && Above(all, prefix) == all - {prefix}
            && (prefix in all <==> VisibleAt(rows, prefix, r).Some?)
            && |Above(all, prefix)| == |all| - if VisibleAt(rows, prefix, r).Some? then 1 else 0
  {
    hide VisibleAt, Less;
    var all := Shown(rows, prefix, GetPrefixRange(prefix).1, r);
    forall n | n in all ensures Less(prefix, n) <==> n != prefix { LessTotal(prefix, n); }
    var stem := prefix[..|prefix| - 1];
    assert prefix == stem + "/";
    SlashRangeExact(stem, prefix);
    if VisibleAt(rows, prefix, r).Some? { VisibleIsNamed(rows, prefix, r); }
  }

  lemma FirstDiffers(all: set<string>, prefix: string, limit: nat)
    requires prefix in all && forall n :: n in all ==> n == prefix || Less(prefix, n)
    ensures Limit(SortNames(all), limit) != Limit(SortNames(all - {prefix}), limit)
  {
    hide Less, SortNames;
    var names, rest := SortNames(all), SortNames(all - {prefix});
    SortNamesSorts(all);
    assert prefix in names && names[0] in names;
    var j :| 0 <= j < |names| && names[j] == prefix;
    if j > 0 { LessTotal(names[0], prefix); }
    assert Limit(names, limit)[0] == prefix;
    if Limit(rest, limit) != [] { assert Limit(rest, limit)[0] in rest; }
  }

  /** The count of a directory, or of what of it comes after a key k: if anything comes after the start, it is etcd's if
    and only if the directory is not itself a key or the count goes on after a key; if nothing does, etcd
    counts the directory's own key or nothing, and the handler the whole directory as it is now. */
  lemma ClientCountIsEtcd(w: World, prefix: string, after: Option<string>, limit: nat, r: nat)
    requires Inv(w) && EndsWithSlash(prefix) && NulFree(prefix) && r > 0 && w.Compacted() <= r <= w.db.lastId
    requires after.Some? ==> NulFree(after.value) && prefix <= after.value
    ensures var req := ClientRequest(prefix, after, limit, r).(countOnly := true);
            var all := Shown(w.hist, prefix, GetPrefixRange(prefix).1, r);
            var now := Shown(w.hist, prefix, GetPrefixRange(prefix).1, w.db.lastId);
            var rest := Above(all, match after { case None => prefix case Some(k) => k });
            && RangeAnswer(w, QUIET, req).Ok? && EtcdRange(w, req).RangeDone?
            && (RangeAnswer(w, QUIET, req).value.count == EtcdRange(w, req).count
                <==> if rest != {} then after.Some? || VisibleAt(w.hist, prefix, r).None?
                     else Min(1000, |now|) == if after.None? && VisibleAt(w.hist, prefix, r).Some? then 1 else 0)
  {
    hide Inv, VisibleAt, RangeAnswer, EtcdRange, CountedNames, FoundNames, DerivedPrefix, CompactRevision, Less, Shown;
    var req := ClientRequest(prefix, after, limit, r);
    ClientNames(w, prefix, after, limit, r);
    SameFound(w, req);
    CountIsEtcd(w, req.(countOnly := true));
    WithoutPrefix(w.hist, prefix, r);
  }

  lemma SameFound(w: World, r: RangeRequest)
    requires r.rangeEnd != ""
    ensures FoundNames(w, r.(countOnly := true)) == FoundNames(w, r)
    ensures CountedNames(w, r.(countOnly := true)) == CountedNames(w, r)
  {
  }

  // ---------------------------------------------------------------- single keys

  /** A get beside etcd's range of one key: the entries are etcd's if and only if the version is still kept, or there is
    none and no directory with something below it is asked for; the revision is if and only if the present or the
    newest revision was asked for; the count never is, unless there is nothing. */
  lemma GetIsEtcd(w: World, r: RangeRequest)
    requires Inv(w) && r.rangeEnd == "" && !r.countOnly && !r.keysOnly
    ensures EtcdRange(w, r).RangeDone?
    ensures var resp, done := GetAnswer(w, QUIET, r), EtcdRange(w, r);
            var at := if r.revision == 0 then w.db.lastId else r.revision;
            var truth := HeldAt(w.hist, r.key, at);
            && (resp.kvs == done.kvs
                <==> if truth.Some? then Kept(w.hist, w.Compacted(), truth.value.modRevision)
                     else !EndsWithSlash(r.key) || FullListing(w.db.rows, r.key, at) == [])
            && (resp.rev == done.rev <==> r.revision == 0 || r.revision == w.db.lastId)
            && resp.more == done.more
            && (resp.count == done.count <==> truth.None?)
  {
    hide Inv, HeldAt, GetAnswer, EtcdRange, Kept, FullListing, CompactRevision, WorldAt, Interleaved;
    QuietIsInterleaved(w);
    QuietWorlds(w, 1);
    QuietWorlds(w, 2);
    GetIsExact(w, QUIET, r);
    GetRevision(w, QUIET, r);
    OneKeyFound(w, r);
  }

  /** etcd finds the version of a single key, if there is one. */
  lemma OneKeyFound(w: World, r: RangeRequest)
    requires r.rangeEnd == "" && !r.countOnly && !r.keysOnly
    ensures var truth := HeldAt(w.hist, r.key, RevisionOf(w, r));
            EtcdRange(w, r) == RangeDone(w.db.lastId, Entry(truth), false, |Entry(truth)|)
  {
    hide VisibleAt, SortNames, Found;
    var at := RevisionOf(w, r);
    var live := LiveIn(w, r.key, "", at);
    FoundIs(w, r);
    if VisibleAt(w.hist, r.key, at).Some? {
      VisibleIsNamed(w.hist, r.key, at);
      assert live == {r.key};
      OneKeySorted(r.key);
    } else {
      assert live == {};
      SortNamesEmpty();
    }
  }
}
