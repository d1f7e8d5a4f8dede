/** Paging through a listing at a fixed revision. */
module Pagination {
  import opened Keys
  import opened Table
  import opened History
  import opened Runs
  import opened Snapshots
  import opened Queries
  import opened Listing

  /** SQLLog.List drops a start key that is the prefix itself, or that comes without a directory. */
  function EffectiveStart(prefix: string, startKey: string): string {
    if EndsWithSlash(prefix) && prefix != startKey then startKey else ""
  }

  datatype Page = Page(events: seq<Event>, more: bool, count: nat)

  /** One answer of the range handler at a revision: it asks for one entry more than the limit
    to learn whether there is more, and counts only then. */
  function PageOf(rows: Rows, prefix: string, start: string, limit: nat, r: nat): Page {
    var events := ListRevision(rows, prefix, EffectiveStart(prefix, start), if limit > 0 then limit + 1 else 0, r);
    if limit > 0 && |events| > limit
    then Page(events[..limit], true, CountRevision(rows, prefix, start, r))
    else Page(events, false, |events|)
  }

  function FullListing(rows: Rows, prefix: string, r: nat): seq<Event> {
    ListRevision(rows, prefix, "", 0, r)
  }

  ghost predicate NamesNulFree(rows: Rows) {
    forall n :: n in Names(rows) ==> NulFree(n)
  }

  lemma ShownAfter(rows: Rows, start: string, end: string, key: string, r: nat)
    requires NamesNulFree(rows) && AtMost(start, key)
    ensures Shown(rows, key + [ONE], end, r) == Above(Shown(rows, start, end, r), key)
  {
    hide Less, VisibleAt, Names;
    forall n | n in Names(rows)
      ensures AtMost(key + [ONE], n) <==> Less(key, n)
      ensures Less(key, n) ==> AtMost(start, n)
    {
      StartKeyIsExclusive(key, n);
      if Less(key, n) && start != key { LessTransitive(start, key, n); }
    }
  }

  lemma ListedKeys(rows: Rows, start: string, end: string, r: nat)
    ensures var names := SortNames(Shown(rows, start, end, r));
            var events := ListSql(rows, start, end, r);
            && |events| == |names|
            && forall k :: 0 <= k < |names| ==> events[k].kv.key == names[k] && names[k] in Shown(rows, start, end, r)
  {
    hide VisibleAt, SortNames;
    var names := SortNames(Shown(rows, start, end, r));
    forall k | 0 <= k < |names|
      ensures names[k] in names && VisibleAt(rows, names[k], r).value.kv.key == names[k]
    {
      assert names[k] in names;
      VisibleIsNamed(rows, names[k], r);
    }
  }

  /** The start-key query is exactly the rest of the listing after that key. */
  lemma RestOfListing(rows: Rows, prefix: string, p: nat, r: nat)
    requires NamesNulFree(rows) && prefix != "" && p < |FullListing(rows, prefix, r)|
    ensures var key := FullListing(rows, prefix, r)[p].kv.key;
            && key != "" && AtMost(prefix, key)
            && ListRevision(rows, prefix, key, 0, r) == FullListing(rows, prefix, r)[p + 1..]
  {
    hide VisibleAt, SortNames, Names, Less;
    var (start, end) := GetPrefixRange(prefix);
    var shown := Shown(rows, start, end, r);
    ListedKeys(rows, start, end, r);
    var key := FullListing(rows, prefix, r)[p].kv.key;
    assert key == SortNames(shown)[p] && key in shown;
    if key == "" { assert AtMost(prefix, ""); assert !Less(prefix, "") by { NothingBelowEmpty(prefix); } }
    ShownAfter(rows, start, end, key, r);
    SuffixAfter(shown, p);
    assert ListSql(rows, key + [ONE], end, r) == ListSql(rows, start, end, r)[p + 1..];
  }

  lemma NothingBelowEmpty(s: string)
    ensures !Less(s, "")
  {
  }

  /** The start of the page that begins at position p of the listing. */
  function StartAt(listing: seq<Event>, prefix: string, p: nat): string
    requires p <= |listing|
  {
    if p == 0 then prefix else listing[p - 1].kv.key
  }

  /** Only the first entry can be the prefix itself. */
  lemma PrefixComesFirst(rows: Rows, prefix: string, p: nat, r: nat)
    requires p < |FullListing(rows, prefix, r)|
    ensures FullListing(rows, prefix, r)[p].kv.key == prefix ==> p == 0 && VisibleAt(rows, prefix, r).Some?
  {
    hide VisibleAt, Names, Less, SortNames;
    var (start, end) := GetPrefixRange(prefix);
    var shown := Shown(rows, start, end, r);
    ListedKeys(rows, start, end, r);
    SortNamesSorts(shown);
    var names := SortNames(shown);
    assert AtMost(prefix, names[0]);
    LessTotal(names[0], prefix);
  }

  /** A key that is the prefix itself heads the listing. */
  lemma PrefixIsListedFirst(rows: Rows, prefix: string, r: nat)
    requires EndsWithSlash(prefix) && VisibleAt(rows, prefix, r).Some?
    ensures FullListing(rows, prefix, r) != [] && FullListing(rows, prefix, r)[0].kv.key == prefix
  {
    hide VisibleAt, Names, Less, SortNames;
    var (start, end) := GetPrefixRange(prefix);
    var shown := Shown(rows, start, end, r);
    ListedKeys(rows, start, end, r);
    SortNamesSorts(shown);
    VisibleIsNamed(rows, prefix, r);
    assert InRange(prefix, start, end) by {
      var stem := prefix[..|prefix| - 1];
      assert prefix == stem + "/";
      SlashRangeExact(stem, prefix);
    }
    var names := SortNames(shown);
    assert prefix in names;
    var k :| 0 <= k < |names| && names[k] == prefix;
    LessTotal(names[0], prefix);
  }

  lemma TailFrom(rows: Rows, prefix: string, p: nat, r: nat)
    requires NamesNulFree(rows) && EndsWithSlash(prefix) && p <= |FullListing(rows, prefix, r)|
    requires p != 1 || VisibleAt(rows, prefix, r).None?
    ensures var listing := FullListing(rows, prefix, r);
            ListRevision(rows, prefix, EffectiveStart(prefix, StartAt(listing, prefix, p)), 0, r) == listing[p..]
  {
    hide VisibleAt, ListSql;
    if p > 0 {
      PrefixComesFirst(rows, prefix, p - 1, r);
      RestOfListing(rows, prefix, p - 1, r);
    }
  }

  /** The entries a count from position p leaves out: those before it, and on a first page the
    prefix itself. */
  function Uncounted(rows: Rows, prefix: string, p: nat, r: nat): nat {
    if p == 0 && VisibleAt(rows, prefix, r).Some? then 1 else p
  }

  /** The entries a count from position p counts. */
  lemma RestFrom(rows: Rows, prefix: string, p: nat, r: nat)
    requires NamesNulFree(rows) && EndsWithSlash(prefix) && p <= |FullListing(rows, prefix, r)|
    ensures var listing := FullListing(rows, prefix, r);
            var (_, end) := GetPrefixRange(prefix);
            && Uncounted(rows, prefix, p, r) <= |listing|
            && ListSql(rows, RangeStart(prefix, StartAt(listing, prefix, p)), end, r)
               == listing[Uncounted(rows, prefix, p, r)..]
  {
    hide VisibleAt, SortNames, Less, ListRevision;
    var (start, end) := GetPrefixRange(prefix);
    if p > 0 {
      RestOfListing(rows, prefix, p - 1, r);
    } else if VisibleAt(rows, prefix, r).None? {
      ShownAfter(rows, start, end, prefix, r);
      assert Above(Shown(rows, start, end, r), prefix) == Shown(rows, start, end, r);
    } else {
      PrefixIsListedFirst(rows, prefix, r);
      RestOfListing(rows, prefix, 0, r);
    }
  }

  lemma CountFrom(rows: Rows, prefix: string, p: nat, r: nat)
    requires NamesNulFree(rows) && EndsWithSlash(prefix) && p <= |FullListing(rows, prefix, r)|
    ensures var listing := FullListing(rows, prefix, r);
            CountRevision(rows, prefix, StartAt(listing, prefix, p), r) == |listing| - Uncounted(rows, prefix, p, r)
  {
    hide VisibleAt, ListSql, CountRevision, ListRevision, Uncounted;
    RestFrom(rows, prefix, p, r);
  }

  lemma LimitOfLimit<T>(q: seq<T>, n: nat)
    requires n > 0
    ensures |Limit(q, n + 1)| > n <==> |q| > n
    ensures |q| > n ==> Limit(q, n + 1)[..n] == q[..n]
    ensures |q| <= n ==> Limit(q, n + 1) == q
  {
  }

  /** A page is a slice of the listing and flagged rightly. Its count is what remains from its
    start, except that a first page does not count a key equal to the prefix. */
  lemma PageIsSlice(rows: Rows, prefix: string, p: nat, limit: nat, r: nat)
    requires NamesNulFree(rows) && EndsWithSlash(prefix) && p <= |FullListing(rows, prefix, r)| && limit > 0
    requires p != 1 || VisibleAt(rows, prefix, r).None?
    ensures var listing := FullListing(rows, prefix, r);
            var page := PageOf(rows, prefix, StartAt(listing, prefix, p), limit, r);
            && (page.more <==> p + limit < |listing|)
            && page.events == (if page.more then listing[p..p + limit] else listing[p..])
            && (page.more ==> page.count == |listing| - Uncounted(rows, prefix, p, r))
  {
    hide VisibleAt, ListSql, EffectiveStart, GetPrefixRange, ListRevision, CountRevision, StartAt, EndsWithSlash;
    var listing := FullListing(rows, prefix, r);
    TailFrom(rows, prefix, p, r);
    CountFrom(rows, prefix, p, r);
    LimitOfLimit(listing[p..], limit);
    assert |listing[p..]| > limit ==> listing[p..][..limit] == listing[p..p + limit];
  }

  lemma TableNamesNulFree(w: World)
    requires Inv(w)
    ensures NamesNulFree(w.db.rows)
  {
    forall n | n in Names(w.db.rows)
      ensures NulFree(n)
    {
      var i :| i in w.db.rows && w.db.rows[i].name == n;
      NamesAreNulFree(w, i);
    }
  }

  lemma HistoryNamesNulFree(w: World)
    requires Inv(w)
    ensures NamesNulFree(w.hist)
  {
    assert NulFree(COMPACT_KEY);
    forall n | n in Names(w.hist) ensures NulFree(n) {
      var i :| i in w.hist && w.hist[i].name == n;
      assert ChainOk(w.hist, i);
    }
  }

  /** Whatever is written or compacted meanwhile, the listing at r does not change. */
  lemma ListingIsStable(w0: World, w: World, prefix: string, r: nat)
    requires Inv(w0) && Inv(w) && Later(w0, w) && w.Compacted() <= r <= w0.db.lastId
    ensures FullListing(w.db.rows, prefix, r) == FullListing(w0.hist, prefix, r)
    ensures VisibleAt(w.db.rows, prefix, r) == VisibleAt(w0.hist, prefix, r)
  {
    hide Inv, Later, VisibleAt;
    forall n ensures VisibleAt(w.db.rows, n, r) == VisibleAt(w0.hist, n, r) {
      VisibleFromCompacted(w, n, r);
      VisibleIsStable(w0, w, n, r);
    }
    var (start, end) := GetPrefixRange(prefix);
    SameEventsSameList(w.db.rows, w0.hist, start, end, r, r);
  }

  lemma PageInWorld(w0: World, w: World, prefix: string, p: nat, limit: nat, r: nat)
    requires Inv(w0) && Inv(w) && Later(w0, w) && w.Compacted() <= r <= w0.db.lastId
    requires EndsWithSlash(prefix) && limit > 0 && p <= |FullListing(w0.hist, prefix, r)|
    requires p != 1 || VisibleAt(w0.hist, prefix, r).None?
    ensures var listing := FullListing(w0.hist, prefix, r);
            var page := PageOf(w.db.rows, prefix, StartAt(listing, prefix, p), limit, r);
            && (page.more <==> p + limit < |listing|)
            && page.events == (if page.more then listing[p..p + limit] else listing[p..])
  {
    hide Inv, Later, VisibleAt, FullListing, PageOf, StartAt;
    ListingIsStable(w0, w, prefix, r);
    TableNamesNulFree(w);
    PageIsSlice(w.db.rows, prefix, p, limit, r);
  }

  /** How much the first k pages can hold. */
  function Room(limits: nat -> nat, k: nat): nat {
    if k == 0 then 0 else Room(limits, k - 1) + limits(k - 1)
  }

  lemma StartsAtPrefix(listing: seq<Event>, prefix: string)
    ensures StartAt(listing, prefix, 0) == prefix
  {
  }

  lemma RoomNext(limits: nat -> nat, k: nat)
    ensures Room(limits, 0) == 0
    ensures Room(limits, k + 1) == Room(limits, k) + limits(k)
  {
  }

  /** What has been collected after one more page, and where the next begins. */
  lemma NextPage(w0: World, w: World, prefix: string, p: nat, limit: nat, r: nat)
    requires Inv(w0) && Inv(w) && Later(w0, w) && w.Compacted() <= r <= w0.db.lastId
    requires EndsWithSlash(prefix) && limit > 0 && p <= |FullListing(w0.hist, prefix, r)|
    requires p != 1 || VisibleAt(w0.hist, prefix, r).None?
    ensures var listing := FullListing(w0.hist, prefix, r);
            var page := PageOf(w.db.rows, prefix, StartAt(listing, prefix, p), limit, r);
            && (page.more <==> p + limit < |listing|)
            && listing[..p] + page.events == (if page.more then listing[..p + limit] else listing)
            && (page.more ==> page.events != [])
            && (page.more ==> page.events[|page.events| - 1].kv.key == StartAt(listing, prefix, p + limit))
  {
    hide Inv, Later, VisibleAt, FullListing, PageOf, EndsWithSlash, CompactRevision;
    PageInWorld(w0, w, prefix, p, limit, r);
  }

  /** A client that pages through a prefix at revision r, with pages of any sizes and each page answered by
    whatever the database has become by then, collects exactly the listing at r. */
  method Paginate(worlds: nat -> World, prefix: string, limits: nat -> nat, r: nat)
    returns (all: seq<Event>, pages: nat)
    requires EndsWithSlash(prefix) && r <= worlds(0).db.lastId
    requires forall k: nat :: limits(k) > 0
    requires forall k: nat :: Inv(worlds(k)) && Later(worlds(0), worlds(k)) && worlds(k).Compacted() <= r
    requires limits(0) > 1 || VisibleAt(worlds(0).hist, prefix, r).None?
             || |FullListing(worlds(0).hist, prefix, r)| == 1
    ensures all == FullListing(worlds(0).hist, prefix, r)
    ensures pages > 0 && |all| <= Room(limits, pages) && (pages == 1 || Room(limits, pages - 1) < |all|)
  {
    hide Inv, Later, VisibleAt, FullListing, PageOf, EndsWithSlash, Room, CompactRevision, StartAt;
    StartsAtPrefix(FullListing(worlds(0).hist, prefix, r), prefix);
    RoomNext(limits, 0);
    ghost var listing := FullListing(worlds(0).hist, prefix, r);
    var start, more := prefix, true;
    all, pages := [], 0;
    while more
      invariant |all| <= |listing| && all == listing[..|all|]
      invariant more ==> start == StartAt(listing, prefix, |all|) && |all| == Room(limits, pages)
      invariant more ==> pages == 0 || limits(0) <= |all| < |listing|
      invariant !more ==> all == listing && pages > 0 && |all| <= Room(limits, pages)
      invariant !more ==> pages == 1 || Room(limits, pages - 1) < |all|
      decreases more, |listing| - |all|
    {
      var limit := limits(pages);
      NextPage(worlds(0), worlds(pages), prefix, |all|, limit, r);
      var page := PageOf(worlds(pages).db.rows, prefix, start, limit, r);
      all := all + page.events;
      more := page.more;
      RoomNext(limits, pages);
      pages := pages + 1;
      if more {
        start := page.events[|page.events| - 1].kv.key;
      }
    }
  }

  /** Exactly the case left out there: with a first page of one entry, more entries than one and a key equal
    to the prefix itself, the second page asks from that key, which the handler takes for a fresh start. It
    begins with the same entry again, and is the same page if it is of one entry too. */
  lemma SingleEntryPagesStall(rows: Rows, prefix: string, limit: nat, r: nat)
    requires EndsWithSlash(prefix) && VisibleAt(rows, prefix, r).Some? && |FullListing(rows, prefix, r)| > 1
    requires limit > 0
    ensures var first := PageOf(rows, prefix, prefix, 1, r);
            && first.more && first.events == [FullListing(rows, prefix, r)[0]] && first.events[0].kv.key == prefix
            && (var second := PageOf(rows, prefix, first.events[0].kv.key, limit, r);
                second.events != [] && second.events[0] == first.events[0] && (limit == 1 ==> second == first))
  {
    hide VisibleAt, ListSql;
    PrefixIsListedFirst(rows, prefix, r);
    LimitOfLimit(FullListing(rows, prefix, r), 1);
    LimitOfLimit(FullListing(rows, prefix, r), limit);
  }

  // ---------------------------------------------------------------- pages that begin at the present

  /** The names a listing at r shows up to a key. */
  function ShownUpto(rows: Rows, prefix: string, key: string, r: nat): set<string> {
    var (start, end) := GetPrefixRange(prefix);
    Upto(Shown(rows, start, end, r), key)
  }

  /** The entries of a listing at r up to a key. */
  function ListedUpto(rows: Rows, prefix: string, key: string, r: nat): seq<Event> {
    EventsAt(rows, SortNames(ShownUpto(rows, prefix, key, r)), r)
  }

  lemma EventsAtJoin(rows: Rows, a: seq<string>, b: seq<string>, r: nat)
    requires forall n :: n in a || n in b ==> VisibleAt(rows, n, r).Some?
    ensures EventsAt(rows, a + b, r) == EventsAt(rows, a, r) + EventsAt(rows, b, r)
  {
    hide VisibleAt;
  }

  /** A listing is its part up to a key, and what the query from that key gives. */
  lemma ListingSplits(rows: Rows, prefix: string, key: string, r: nat)
    requires NamesNulFree(rows) && EndsWithSlash(prefix) && prefix != key && AtMost(prefix, key)
    ensures FullListing(rows, prefix, r)
            == ListedUpto(rows, prefix, key, r)
             + ListRevision(rows, prefix, EffectiveStart(prefix, key), 0, r)
  {
    hide VisibleAt, SortNames, Less, Names, ListRevision;
    var (start, end) := GetPrefixRange(prefix);
    var shown := Shown(rows, start, end, r);
    if key == "" { NothingBelowEmpty(prefix); }
    ShownAfter(rows, start, end, key, r);
    SortNamesSplit(shown, key);
    EventsAtJoin(rows, SortNames(Upto(shown, key)), SortNames(Above(shown, key)), r);
  }

  /** The first entries of a listing are those up to the last key of them. */
  lemma FirstUpto(rows: Rows, prefix: string, limit: nat, r: nat)
    requires 0 < limit <= |FullListing(rows, prefix, r)|
    ensures var key := FullListing(rows, prefix, r)[limit - 1].kv.key;
            FullListing(rows, prefix, r)[..limit] == ListedUpto(rows, prefix, key, r)
    ensures AtMost(prefix, FullListing(rows, prefix, r)[limit - 1].kv.key)
  {
    hide VisibleAt, SortNames, Less, Names, ListRevision;
    var (start, end) := GetPrefixRange(prefix);
    var shown := Shown(rows, start, end, r);
    ListedKeys(rows, start, end, r);
    var names := SortNames(shown);
    var key := names[limit - 1];
    SuffixAfter(shown, limit - 1);
    SortNamesSplit(shown, key);
    var low := SortNames(Upto(shown, key));
    assert |names| == |low| + |names[limit..]|;
    assert low == (low + names[limit..])[..limit] == names[..limit];
  }

  lemma ShownUptoIs(rows: Rows, prefix: string, key: string, r: nat, n: string)
    requires EndsWithSlash(prefix)
    ensures n in ShownUpto(rows, prefix, key, r) <==> prefix <= n && AtMost(n, key) && VisibleAt(rows, n, r).Some?
  {
    hide VisibleAt, Less;
    var stem := prefix[..|prefix| - 1];
    assert prefix == stem + "/";
    SlashRangeExact(stem, n);
    LessTotal(n, key);
    if VisibleAt(rows, n, r).Some? { VisibleIsNamed(rows, n, r); }
  }

  /** Up to a key, two revisions list the same if and only if every key shows the same at both. */
  lemma SameUpto(rows: Rows, prefix: string, key: string, a: nat, b: nat)
    requires EndsWithSlash(prefix)
    ensures ListedUpto(rows, prefix, key, a) == ListedUpto(rows, prefix, key, b)
       <==> forall n :: prefix <= n && AtMost(n, key) ==> VisibleAt(rows, n, a) == VisibleAt(rows, n, b)
  {
    hide VisibleAt, SortNames, Less, ShownUpto;
    var A, B := ShownUpto(rows, prefix, key, a), ShownUpto(rows, prefix, key, b);
    forall n
      ensures n in A <==> prefix <= n && AtMost(n, key) && VisibleAt(rows, n, a).Some?
      ensures n in B <==> prefix <= n && AtMost(n, key) && VisibleAt(rows, n, b).Some?
    {
      ShownUptoIs(rows, prefix, key, a, n);
      ShownUptoIs(rows, prefix, key, b, n);
    }
    var first, second := EventsAt(rows, SortNames(A), a), EventsAt(rows, SortNames(B), b);
    if first == second {
      forall n | prefix <= n && AtMost(n, key)
        ensures VisibleAt(rows, n, a) == VisibleAt(rows, n, b)
      {
        if n in A { SameEvent(rows, SortNames(A), a, SortNames(B), b, n); }
        if n in B { SameEvent(rows, SortNames(B), b, SortNames(A), a, n); }
      }
    } else if forall n :: prefix <= n && AtMost(n, key) ==> VisibleAt(rows, n, a) == VisibleAt(rows, n, b) {
      assert A == B;
      SameEvents(rows, SortNames(A), a, b);
      assert false;
    }
  }

  lemma SameEvents(rows: Rows, names: seq<string>, a: nat, b: nat)
    requires forall n :: n in names ==> VisibleAt(rows, n, a).Some? && VisibleAt(rows, n, b) == VisibleAt(rows, n, a)
    ensures EventsAt(rows, names, a) == EventsAt(rows, names, b)
  {
    hide VisibleAt;
    assert forall k :: 0 <= k < |names| ==> names[k] in names;
  }

  lemma SameEvent(rows: Rows, A: seq<string>, a: nat, B: seq<string>, b: nat, n: string)
    requires forall m :: m in A ==> VisibleAt(rows, m, a).Some?
    requires forall m :: m in B ==> VisibleAt(rows, m, b).Some?
    requires EventsAt(rows, A, a) == EventsAt(rows, B, b) && n in A
    ensures VisibleAt(rows, n, b) == VisibleAt(rows, n, a)
  {
    hide VisibleAt;
    var k :| 0 <= k < |A| && A[k] == n;
    assert |A| == |EventsAt(rows, A, a)| == |EventsAt(rows, B, b)| == |B|;
    var e := EventsAt(rows, A, a)[k];
    assert e == EventsAt(rows, B, b)[k];
    assert B[k] in B;
    VisibleIsNamed(rows, n, a);
    VisibleIsNamed(rows, B[k], b);
  }

  /** A client lists the present, is cut off at the limit, and goes on from the last key at the revision that page
    carries, which was read in `counted`. What it collects is the listing at that revision if and only if no
    key up to the first page's last shows something else there than when the first page was read. */
  lemma PagesFromPresent(w: World, counted: World, later: World, prefix: string, limit: nat)
    requires Inv(w) && Inv(counted) && Inv(later) && Later(w, counted) && Later(counted, later)
    requires later.Compacted() <= counted.db.lastId
    requires EndsWithSlash(prefix) && 0 < limit < |FullListing(w.db.rows, prefix, w.db.lastId)|
    requires FullListing(w.db.rows, prefix, w.db.lastId)[limit - 1].kv.key != prefix
    ensures var a, r, h := w.db.lastId, counted.db.lastId, later.hist;
            var first := FullListing(w.db.rows, prefix, a)[..limit];
            var last := first[limit - 1].kv.key;
            var rest := ListRevision(later.db.rows, prefix, EffectiveStart(prefix, last), 0, r);
            first + rest == FullListing(h, prefix, r)
            <==> forall n :: prefix <= n && AtMost(n, last) ==> VisibleAt(h, n, a) == VisibleAt(h, n, r)
  {
    hide Inv, Later, VisibleAt, Less, ListRevision, ListedUpto, EffectiveStart, CompactRevision, FullListing;
    var a, r, h := w.db.lastId, counted.db.lastId, later.hist;
    MaxIdIsNewest(w);
    CompactedFacts(w, counted);
    LaterTransitive(w, counted, later);
    ListingHolds(w, later, prefix, a);
    var last := FullListing(h, prefix, a)[limit - 1].kv.key;
    FirstUpto(h, prefix, limit, a);
    HistoryNamesNulFree(later);
    ListingSplits(h, prefix, last, r);
    RestHolds(later, prefix, last, r);
    SameUpto(h, prefix, last, a, r);
    var first, low := FullListing(h, prefix, a)[..limit], ListedUpto(h, prefix, last, r);
    var rest := ListRevision(h, prefix, EffectiveStart(prefix, last), 0, r);
    SameTail(first, low, rest);
  }

  lemma SameTail<T>(a: seq<T>, b: seq<T>, tail: seq<T>)
    ensures a + tail == b + tail <==> a == b
  {
    if a + tail == b + tail {
      assert |a| == |b|;
      assert a == (a + tail)[..|a|] && b == (b + tail)[..|b|];
    }
  }

  lemma CompactedFacts(w: World, w': World)
    requires Inv(w) && Later(w, w')
    ensures w.Compacted() <= w.db.lastId <= w'.db.lastId
  {
  }

  lemma ListingHolds(w: World, later: World, prefix: string, r: nat)
    requires Inv(w) && Inv(later) && Later(w, later) && w.Compacted() <= r <= w.db.lastId
    ensures FullListing(w.db.rows, prefix, r) == FullListing(later.hist, prefix, r)
  {
    hide Inv, Later, VisibleAt, CompactRevision;
    forall n ensures VisibleAt(w.db.rows, n, r) == VisibleAt(later.hist, n, r) {
      VisibleFromCompacted(w, n, r);
      VisibleIsStable(w, later, n, r);
    }
    var (start, end) := GetPrefixRange(prefix);
    SameEventsSameList(w.db.rows, later.hist, start, end, r, r);
  }

  lemma RestHolds(w: World, prefix: string, key: string, r: nat)
    requires Inv(w) && w.Compacted() <= r
    ensures ListRevision(w.db.rows, prefix, EffectiveStart(prefix, key), 0, r)
         == ListRevision(w.hist, prefix, EffectiveStart(prefix, key), 0, r)
  {
    hide Inv, VisibleAt, CompactRevision, ListRevision, EffectiveStart;
    forall n ensures VisibleAt(w.db.rows, n, r) == VisibleAt(w.hist, n, r) { VisibleFromCompacted(w, n, r); }
    var (_, end) := GetPrefixRange(prefix);
    SameEventsSameList(w.db.rows, w.hist, RangeStart(prefix, EffectiveStart(prefix, key)), end, r, r);
  }
}
