/** The range handler: one key, or a page of a prefix. */
module Ranges {
  import opened Keys
  import opened Table
  import opened History
  import opened Runs
  import opened Snapshots
  import opened Listing
  import opened Pagination
  import opened Driver
  import opened Backend

  datatype RangeRequest =
    RangeRequest(key: string, rangeEnd: string, limit: nat, revision: nat, countOnly: bool, keysOnly: bool)

  datatype RangeResponse = RangeResponse(rev: nat, kvs: seq<KeyValue>, more: bool, count: nat)

  /** The byte before a byte, wrapping around below zero. */
  function ByteBefore(c: char): char {
    ((c as int + 255) % 256) as char
  }

  /** The prefix that a range end was made from. */
  function DerivedPrefix(rangeEnd: string): (prefix: string)
    requires rangeEnd != ""
    ensures EndsWithSlash(prefix)
  {
    var prefix := rangeEnd[..|rangeEnd| - 1] + [ByteBefore(rangeEnd[|rangeEnd| - 1])];
    if EndsWithSlash(prefix) then prefix else prefix + "/"
  }

  /** bytes.TrimRight with the NUL byte. */
  function TrimNul(key: string): string
    decreases |key|
  {
    if key != "" && key[|key| - 1] == NUL then TrimNul(key[..|key| - 1]) else key
  }

  /** Clients make the range end by raising a prefix's last byte; the handler finds the prefix again. */
  lemma PrefixIsRecovered(prefix: string)
    requires EndsWithSlash(prefix)
    ensures DerivedPrefix(GetPrefixRange(prefix).1) == prefix
  {
    var end := GetPrefixRange(prefix).1;
    assert end[|end| - 1] == '0' && end[..|end| - 1] == prefix[..|prefix| - 1];
    assert prefix == prefix[..|prefix| - 1] + "/";
  }

  /** How clients make the range end of a prefix: its last byte raised by one. */
  function Raised(prefix: string): string
    requires prefix != "" && prefix[|prefix| - 1] < '\U{FF}'
  {
    prefix[..|prefix| - 1] + [(prefix[|prefix| - 1] as int + 1) as char]
  }

  /** From such a range end the handler lists the prefix, as a directory; for a directory it is the range end of
    the queries. */
  lemma RaisedIsRecovered(prefix: string)
    requires prefix != "" && prefix[|prefix| - 1] < '\U{FF}'
    ensures DerivedPrefix(Raised(prefix)) == if EndsWithSlash(prefix) then prefix else prefix + "/"
    ensures EndsWithSlash(prefix) ==> Raised(prefix) == GetPrefixRange(prefix).1
  {
    var end := Raised(prefix);
    assert end[..|end| - 1] == prefix[..|prefix| - 1];
    assert prefix == prefix[..|prefix| - 1] + [prefix[|prefix| - 1]];
  }

  /** A range end of NUL bytes, which to etcd means no end, is lowered to the highest byte. */
  lemma OpenEndIsDerived(stem: string)
    ensures DerivedPrefix(stem + [NUL]) == stem + ['\U{FF}'] + "/"
  {
    assert (stem + [NUL])[..|stem|] == stem;
  }

  /** All trailing NUL bytes are trimmed, and nothing else. */
  lemma {:induction false} NulsAreTrimmed(key: string, nuls: string)
    requires (key == "" || key[|key| - 1] != NUL) && forall k :: 0 <= k < |nuls| ==> nuls[k] == NUL
    ensures TrimNul(key + nuls) == key
    decreases |nuls|
  {
    if nuls == "" {
      assert key + nuls == key;
    } else {
      NulsAreTrimmed(key, nuls[..|nuls| - 1]);
      assert (key + nuls)[..|key + nuls| - 1] == key + nuls[..|nuls| - 1];
    }
  }

  /** Clients continue a listing from the last key with a NUL appended; the handler finds the key again. */
  lemma ContinuationIsRecovered(key: string)
    requires NulFree(key)
    ensures TrimNul(key + [NUL]) == key && TrimNul(key) == key
  {
    assert (key + [NUL])[..|key|] == key;
    assert key != "" ==> key[|key| - 1] in key;
  }

  /** When there is more, there is something to count. */
  lemma MoreCounts(rows: Rows, prefix: string, start: string, limit: nat, r: nat)
    requires NamesNulFree(rows) && EndsWithSlash(prefix) && limit > 0
    requires PageOf(rows, prefix, start, limit, r).more
    ensures CountRevision(rows, prefix, start, r) > 0
  {
    hide VisibleAt, SortNames, Less, Names, EndsWithSlash;
    if start == prefix {
      var listing := FullListing(rows, prefix, r);
      var (first, end) := GetPrefixRange(prefix);
      ListedKeys(rows, first, end, r);
      ListedKeys(rows, prefix + [ONE], end, r);
      var key := listing[1].kv.key;
      if key == prefix { PrefixComesFirst(rows, prefix, 1, r); }
      ShownAfter(rows, first, end, prefix, r);
      assert key in Shown(rows, prefix + [ONE], end, r);
    }
  }

  /** Between the statements of a list and a count that follows it. */
  const LIST_GAPS: nat := 4
  const RANGE_GAPS: nat := 8

  /** What the handler answers to a range: a count, or one entry more than the limit, cut back and
    counted if there is more. */
  function RangeAnswer(w: World, others: seq<seq<Step>>, r: RangeRequest): Result<RangeResponse>
    requires |others| == RANGE_GAPS
  {
    if r.rangeEnd == "" then Err(InvalidRangeEnd)
    else
      var prefix, start := DerivedPrefix(r.rangeEnd), TrimNul(r.key);
      if r.countOnly then
        match CountAnswer(w, others, prefix, start, r.revision)
        case Ok((rev, count)) => Ok(RangeResponse(rev, [], false, count))
        case Err(f) => Err(f)
      else
        match ListAnswer(w, others[..LIST_GAPS], prefix, start, if r.limit > 0 then r.limit + 1 else 0, r.revision)
        case Err(f) => Err(f)
        case Ok((rev, kvs)) =>
          if r.limit == 0 || |kvs| <= r.limit then Ok(RangeResponse(rev, kvs, false, |kvs|))
          else
            var at := if r.revision == 0 then rev else r.revision;
            match CountAnswer(WorldAt(w, others, LIST_GAPS + 1), others[LIST_GAPS + 1..], prefix, start, at)
            case Ok((now, count)) => Ok(RangeResponse(now, kvs[..r.limit], true, count))
            case Err(f) => Err(f)
  }

  /** What the handler answers to a single key: the row is read in one world, the revision in a later one. */
  function GetAnswer(w: World, others: seq<seq<Step>>, r: RangeRequest): RangeResponse
    requires |others| >= 2
  {
    RangeResponse(if r.revision == 0 then RevisionRead(w, others) else r.revision,
                  match FirstOf(w.db.rows, r.key, if r.revision == 0 then MaxId(w.db) else r.revision) {
                    case Some(kv) => [kv]
                    case None => []
                  },
                  false, 0)
  }

  function Entry(kv: Option<KeyValue>): seq<KeyValue> {
    if kv.None? then [] else [kv.value]
  }

  /** A single key is answered as the history has it at the revision asked for, if and only if its version
    there is still kept, or it has none and is no directory or one with nothing listed under it. From the
    compact revision on versions are always kept. */
  lemma GetIsExact(w: World, others: seq<seq<Step>>, r: RangeRequest)
    requires Inv(w) && |others| >= 2
    ensures var resp := GetAnswer(w, others, r);
            var at := if r.revision == 0 then w.db.lastId else r.revision;
            var truth := HeldAt(w.hist, r.key, at);
            && (resp.kvs == Entry(truth)
                <==> if truth.Some? then Kept(w.hist, w.Compacted(), truth.value.modRevision)
                     else !EndsWithSlash(r.key) || FullListing(w.db.rows, r.key, at) == [])
            && (at >= w.Compacted() && truth.Some? ==> Kept(w.hist, w.Compacted(), truth.value.modRevision))
            && (at >= w.Compacted() ==> FullListing(w.db.rows, r.key, at) == FullListing(w.hist, r.key, at))
  {
    hide Inv, VisibleAt, FirstOf, WorldAt, Kept, MaxId, FullListing, RevisionRead, CompactRevision;
    var at := if r.revision == 0 then w.db.lastId else r.revision;
    MaxIdIsNewest(w);
    TableNamesNulFree(w);
    FirstIsVisible(w.db.rows, r.key, at);
    VisibleExactly(w, r.key, at);
    if FirstOf(w.db.rows, r.key, at).Some? { FirstIsHeld(w.db.rows, r.key, at); }
    if HeldAt(w.hist, r.key, at).Some? { VisibleIsLatest(w.hist, r.key, at); }
    if at >= w.Compacted() {
      VisibleFromCompacted(w, r.key, at);
      SameListingAbove(w, r.key, at);
    }
  }

  /** The revision of a get is the one asked for, or for the present that of a read after the row's, and of one more
    if the table was empty then. It is never below the entry's. With nobody else acting it is the newest, as
    etcd's is, if and only if the present or the newest was asked for. */
  lemma GetRevision(w: World, others: seq<seq<Step>>, r: RangeRequest)
    requires Inv(w) && Interleaved(w, others) && |others| >= 2
    ensures var resp, w1, w2 := GetAnswer(w, others, r), WorldAt(w, others, 1), WorldAt(w, others, 2);
            && !resp.more && resp.count == 0
            && (r.revision > 0 ==> resp.rev == r.revision)
            && (r.revision == 0 ==> resp.rev == if w1.db.lastId == 0 then w2.db.lastId else w1.db.lastId)
            && (forall kv :: kv in resp.kvs ==> kv.modRevision <= resp.rev)
            && (w2.db.lastId == w.db.lastId ==>
                  (resp.rev == w.db.lastId <==> r.revision == 0 || r.revision == w.db.lastId))
  {
    hide Inv, Later, FirstOf, WorldAt, Interleaved, MaxId, RevisionRead;
    var at := if r.revision == 0 then w.db.lastId else r.revision;
    MaxIdIsNewest(w);
    FirstWorld(w, others);
    WorldsAreLater(w, others, 0, 1);
    WorldsAreLater(w, others, 1, 2);
    LaterFacts(w, WorldAt(w, others, 1));
    LaterFacts(WorldAt(w, others, 1), WorldAt(w, others, 2));
    RevisionIsLater(w, others);
    if FirstOf(w.db.rows, r.key, at).Some? {
      FirstIsHeld(w.db.rows, r.key, at);
      LatestIsBelow(w.db.rows, FirstOf(w.db.rows, r.key, at).value.key, at);
    }
  }

  lemma LatestIsBelow(rows: Rows, name: string, r: nat)
    ensures LatestAt(rows, name, r) <= r
  {
  }

  lemma SameListingAbove(w: World, prefix: string, r: nat)
    requires Inv(w) && r >= w.Compacted()
    ensures FullListing(w.db.rows, prefix, r) == FullListing(w.hist, prefix, r)
  {
    hide Inv, VisibleAt;
    forall n ensures VisibleAt(w.db.rows, n, r) == VisibleAt(w.hist, n, r) { VisibleFromCompacted(w, n, r); }
    var (start, end) := GetPrefixRange(prefix);
    SameEventsSameList(w.db.rows, w.hist, start, end, r, r);
  }

  /** The revision of an answer about the present is no older than its row, and newer exactly by what was
    written before it was read. */
  lemma RevisionIsLater(w: World, others: seq<seq<Step>>)
    requires Inv(w) && Interleaved(w, others) && |others| >= 2
    ensures var rev := RevisionRead(w, others);
            && w.db.lastId <= rev
            && rev == (if WorldAt(w, others, 1).db.lastId == 0 then WorldAt(w, others, 2).db.lastId
                       else WorldAt(w, others, 1).db.lastId)
  {
    hide Inv, Later, WorldAt, Interleaved, MaxId;
    WorldsAreLater(w, others, 0, 1);
    WorldsAreLater(w, others, 1, 2);
    FirstWorld(w, others);
    LaterFacts(w, WorldAt(w, others, 1));
    LaterFacts(WorldAt(w, others, 1), WorldAt(w, others, 2));
    MaxIdIsNewest(WorldAt(w, others, 1));
    MaxIdIsNewest(WorldAt(w, others, 2));
  }

  /** The request for the page that begins at position p of a listing. */
  function PageRequest(listing: seq<Event>, prefix: string, p: nat, limit: nat, r: nat): RangeRequest
    requires p <= |listing|
  {
    RangeRequest(if p == 0 then prefix else listing[p - 1].kv.key + [NUL],
                 GetPrefixRange(prefix).1, limit, r, false, false)
  }

  /** The request names its page. */
  lemma RequestNamesPage(w0: World, prefix: string, p: nat, limit: nat, r: nat)
    requires Inv(w0) && EndsWithSlash(prefix) && NulFree(prefix) && p <= |FullListing(w0.hist, prefix, r)|
    ensures var listing := FullListing(w0.hist, prefix, r);
            var req := PageRequest(listing, prefix, p, limit, r);
            && req.rangeEnd != "" && DerivedPrefix(req.rangeEnd) == prefix
            && TrimNul(req.key) == StartAt(listing, prefix, p)
  {
    hide Inv, VisibleAt, FullListing, GetPrefixRange, DerivedPrefix, TrimNul, EndsWithSlash;
    PrefixIsRecovered(prefix);
    RangeEndIsGiven(prefix);
    if p > 0 {
      HistoryNamesNulFree(w0);
      ListedIsNulFree(w0.hist, prefix, p - 1, r);
      ContinuationIsRecovered(FullListing(w0.hist, prefix, r)[p - 1].kv.key);
    } else {
      ContinuationIsRecovered(prefix);
    }
  }

  lemma KvsSlice(events: seq<Event>, n: nat)
    requires n <= |events|
    ensures Kvs(events[..n]) == Kvs(events)[..n]
  {
  }

  lemma ListsThePage(w: World, others: seq<seq<Step>>, prefix: string, start: string, limit: nat, revision: nat)
    requires |others| == RANGE_GAPS && revision > 0 && WorldAt(w, others, 1).Compacted() <= revision
    ensures ListAnswer(w, others[..LIST_GAPS], prefix, start, limit, revision)
            == Ok((revision, EntriesAt(w.db.rows, prefix, start, limit, revision)))
  {
    hide EntriesAt, WorldAt, CompactRevision;
    FirstWorld(w, others);
    WorldAtSlice(w, others, 0, LIST_GAPS, 1);
    assert others[0..LIST_GAPS] == others[..LIST_GAPS];
  }

  lemma PageOfEntries(rows: Rows, prefix: string, start: string, limit: nat, r: nat)
    requires limit > 0
    ensures var kvs := EntriesAt(rows, prefix, start, limit + 1, r);
            var page := PageOf(rows, prefix, start, limit, r);
            && page.more == (|kvs| > limit)
            && Kvs(page.events) == (if page.more then kvs[..limit] else kvs)
            && |page.events| == |Kvs(page.events)|
            && (page.more ==> page.count == CountRevision(rows, prefix, start, r))
            && (!page.more ==> page.count == |kvs|)
  {
    hide ListRevision, CountRevision, EffectiveStart;
    var events := ListRevision(rows, prefix, EffectiveStart(prefix, start), limit + 1, r);
    if |events| > limit { KvsSlice(events, limit); }
  }

  lemma CountsRows(w: World, others: seq<seq<Step>>, prefix: string, start: string, r: nat)
    requires |others| >= 3 && r > 0 && CountRevision(w.db.rows, prefix, start, r) > 0
    ensures CountAnswer(w, others, prefix, start, r) == Ok((MaxId(w.db), CountRevision(w.db.rows, prefix, start, r)))
  {
  }

  /** What the handler makes of what was listed and counted. */
  lemma AnswerIsCut(w: World, others: seq<seq<Step>>, r: RangeRequest, kvs: seq<KeyValue>)
    requires |others| == RANGE_GAPS && r.rangeEnd != "" && !r.countOnly && r.limit > 0 && r.revision > 0
    requires ListAnswer(w, others[..LIST_GAPS], DerivedPrefix(r.rangeEnd), TrimNul(r.key), r.limit + 1, r.revision)
             == Ok((r.revision, kvs))
    ensures var counting := CountAnswer(WorldAt(w, others, LIST_GAPS + 1), others[LIST_GAPS + 1..],
                                        DerivedPrefix(r.rangeEnd), TrimNul(r.key), r.revision);
            RangeAnswer(w, others, r)
            == if |kvs| <= r.limit then Ok(RangeResponse(r.revision, kvs, false, |kvs|))
               else if counting.Err? then Err(counting.failure)
               else Ok(RangeResponse(counting.value.0, kvs[..r.limit], true, counting.value.1))
  {
    hide DerivedPrefix, TrimNul, WorldAt, ListAnswer, CountAnswer;
  }

  /** The handler's answer in terms of a page of the rows it read and of the rows it counted. */
  lemma AnswerIsPage(w: World, others: seq<seq<Step>>, r: RangeRequest)
    requires |others| == RANGE_GAPS
    requires r.rangeEnd != "" && !r.countOnly && r.limit > 0 && r.revision > 0
    requires WorldAt(w, others, 1).Compacted() <= r.revision
    ensures var prefix, start := DerivedPrefix(r.rangeEnd), TrimNul(r.key);
            var page := PageOf(w.db.rows, prefix, start, r.limit, r.revision);
            var counted := WorldAt(w, others, LIST_GAPS + 1);
            var n := CountRevision(counted.db.rows, prefix, start, r.revision);
            var answer := RangeAnswer(w, others, r);
            && (!page.more ==> answer == Ok(RangeResponse(r.revision, Kvs(page.events), false, |page.events|)))
            && (page.more && n > 0 ==> answer == Ok(RangeResponse(MaxId(counted.db), Kvs(page.events), true, n)))
            && (answer.Ok? ==> answer.value.more == page.more && answer.value.kvs == Kvs(page.events))
  {
    hide PageOf, CountRevision, DerivedPrefix, TrimNul, WorldAt, CompactRevision, MaxId, EntriesAt, ListAnswer,
         CountAnswer, Kvs,
         RangeAnswer;
    var prefix, start := DerivedPrefix(r.rangeEnd), TrimNul(r.key);
    var counted := WorldAt(w, others, LIST_GAPS + 1);
    if CountRevision(counted.db.rows, prefix, start, r.revision) > 0 {
      CountsRows(counted, others[LIST_GAPS + 1..], prefix, start, r.revision);
    }
    ListsThePage(w, others, prefix, start, r.limit + 1, r.revision);
    PageOfEntries(w.db.rows, prefix, start, r.limit, r.revision);
    AnswerIsCut(w, others, r, EntriesAt(w.db.rows, prefix, start, r.limit + 1, r.revision));
  }

  /** The events of a listing whose versions a world still keeps. */
  predicate AllKept(w: World, events: seq<Event>) {
    forall e :: e in events ==> Kept(w.hist, w.Compacted(), e.kv.modRevision)
  }

  /** A count is short by the versions compaction has taken, and so right exactly if all are kept. */
  lemma CountIsOfKept(w: World, prefix: string, startKey: string, r: nat)
    requires Inv(w)
    ensures var all := ListSql(w.hist, RangeStart(prefix, startKey), GetPrefixRange(prefix).1, r);
            && CountRevision(w.db.rows, prefix, startKey, r) <= |all|
            && (CountRevision(w.db.rows, prefix, startKey, r) == |all| <==> AllKept(w, all))
  {
    hide Inv, VisibleAt, SortNames, InRange, Names, Kept, CountRevision, CompactRevision;
    var start, end := RangeStart(prefix, startKey), GetPrefixRange(prefix).1;
    var kept, all := Shown(w.db.rows, start, end, r), Shown(w.hist, start, end, r);
    var names, events := SortNames(all), ListSql(w.hist, start, end, r);
    ListedKeys(w.hist, start, end, r);
    forall n | n in Names(w.db.rows) || n in Names(w.hist)
      ensures n in kept <==> n in all && Kept(w.hist, w.Compacted(), VisibleAt(w.hist, n, r).value.kv.modRevision)
    {
      VisibleExactly(w, n, r);
      if VisibleAt(w.hist, n, r).Some? { VisibleIsNamed(w.hist, n, r); }
      if VisibleAt(w.db.rows, n, r).Some? { VisibleIsNamed(w.db.rows, n, r); }
    }
    SortNamesSorts(kept);
    SortNamesSorts(all);
    SubsetSize(kept, all);
    if kept == all {
      forall e | e in events ensures Kept(w.hist, w.Compacted(), e.kv.modRevision) {
        var k :| 0 <= k < |events| && events[k] == e;
        assert names[k] in names;
      }
    } else {
      var n :| n in all && n !in kept;
      assert n in names;
      var k :| 0 <= k < |names| && names[k] == n;
      assert events[k] in events && !Kept(w.hist, w.Compacted(), events[k].kv.modRevision);
    }
  }

  lemma {:induction false} SubsetSize<T>(a: set<T>, b: set<T>)
    requires a <= b
    ensures |a| <= |b| && (|a| == |b| <==> a == b)
    decreases |a|
  {
    if a != {} {
      var x :| x in a;
      SubsetSize(a - {x}, b - {x});
      assert a == b <==> a - {x} == b - {x} by { assert a == a - {x} + {x} && b == b - {x} + {x}; }
    }
  }

  lemma CountInWorld(w0: World, w: World, prefix: string, p: nat, r: nat)
    requires Inv(w0) && Inv(w) && Later(w0, w) && r <= w0.db.lastId
    requires EndsWithSlash(prefix) && p <= |FullListing(w0.hist, prefix, r)|
    ensures var listing := FullListing(w0.hist, prefix, r);
            var n := CountRevision(w.db.rows, prefix, StartAt(listing, prefix, p), r);
            var left := Uncounted(w0.hist, prefix, p, r);
            left <= |listing| && n <= |listing| - left && (n == |listing| - left <==> AllKept(w, listing[left..]))
    ensures w.Compacted() <= r ==> AllKept(w, FullListing(w0.hist, prefix, r))
  {
    hide Inv, Later, VisibleAt, FullListing, StartAt, CountRevision, Uncounted, AllKept, CompactRevision;
    var listing := FullListing(w0.hist, prefix, r);
    var (start, end) := GetPrefixRange(prefix);
    HistoryNamesNulFree(w0);
    RestFrom(w0.hist, prefix, p, r);
    CountIsOfKept(w, prefix, StartAt(listing, prefix, p), r);
    forall n ensures VisibleAt(w.hist, n, r) == VisibleAt(w0.hist, n, r) { VisibleIsStable(w0, w, n, r); }
    SameEventsSameList(w.hist, w0.hist, RangeStart(prefix, StartAt(listing, prefix, p)), end, r, r);
    if w.Compacted() <= r { ListedAreKept(w0, w, prefix, r); }
  }

  lemma ListedAreKept(w0: World, w: World, prefix: string, r: nat)
    requires Inv(w0) && Inv(w) && Later(w0, w) && w.Compacted() <= r <= w0.db.lastId
    ensures AllKept(w, FullListing(w0.hist, prefix, r))
  {
    hide Inv, Later, VisibleAt, FullListing, Kept, CompactRevision;
    var listing := FullListing(w0.hist, prefix, r);
    forall e | e in listing ensures Kept(w.hist, w.Compacted(), e.kv.modRevision) {
      var k :| 0 <= k < |listing| && listing[k] == e;
      ListedAreVisible(w0.hist, prefix, r, k);
      VisibleIsStable(w0, w, e.kv.key, r);
      VisibleExactly(w, e.kv.key, r);
      VisibleFromCompacted(w, e.kv.key, r);
    }
  }

  /** Such a request, sent at any later moment and not refused, is answered with the listing's entries from that
    position on, and rightly told whether there are more. If there are, the count is never too high, and it is
    what remains exactly if no version it counts has been compacted by then; if it is zero for that, the
    handler counts something else. */
  lemma PageIsAnswered(w0: World, w: World, others: seq<seq<Step>>, prefix: string, p: nat, limit: nat, r: nat)
    requires Inv(w0) && Inv(w) && Later(w0, w) && |others| == RANGE_GAPS && Interleaved(w, others)
    requires WorldAt(w, others, 1).Compacted() <= r <= w0.db.lastId && r > 0
    requires EndsWithSlash(prefix) && NulFree(prefix) && limit > 0 && p <= |FullListing(w0.hist, prefix, r)|
    requires p != 1 || VisibleAt(w0.hist, prefix, r).None?
    ensures var listing := FullListing(w0.hist, prefix, r);
            var answer := RangeAnswer(w, others, PageRequest(listing, prefix, p, limit, r));
            var counted, left := WorldAt(w, others, LIST_GAPS + 1), Uncounted(w0.hist, prefix, p, r);
            var n := CountRevision(counted.db.rows, prefix, StartAt(listing, prefix, p), r);
            && (answer.Ok? ==> answer.value.more == (p + limit < |listing|))
            && (answer.Ok? ==>
                  answer.value.kvs == Kvs(if p + limit < |listing| then listing[p..p + limit] else listing[p..]))
            && (p + limit >= |listing| ==> answer.Ok? && answer.value.count == |listing| - p)
            && left <= |listing| && n <= |listing| - left
            && (p + limit < |listing| && n > 0 ==> answer.Ok? && answer.value.count == n)
            && (n == |listing| - left <==> AllKept(counted, listing[left..]))
            && (counted.Compacted() <= r ==> n == |listing| - left)
  {
    hide Inv, Later, VisibleAt, FullListing, PageOf, DerivedPrefix, TrimNul, EndsWithSlash, MaxId, CompactRevision,
         RangeAnswer,
         CountRevision, StartAt, GetPrefixRange, WorldAt, Interleaved, Uncounted, Kept;
    var listing := FullListing(w0.hist, prefix, r);
    var req := PageRequest(listing, prefix, p, limit, r);
    var counted := WorldAt(w, others, LIST_GAPS + 1);
    FirstWorld(w, others);
    WorldsAreLater(w, others, 0, LIST_GAPS + 1);
    WorldsAreLater(w, others, 0, 1);
    LaterFacts(w, WorldAt(w, others, 1));
    LaterTransitive(w0, w, counted);
    RequestNamesPage(w0, prefix, p, limit, r);
    PageInWorld(w0, w, prefix, p, limit, r);
    CountInWorld(w0, counted, prefix, p, r);
    AnswerIsPage(w, others, req);
  }

  /** A list at a revision that has been compacted when its check is made is refused as that; a list without a range
    end is refused at once, whatever it asks for. */
  lemma CompactedIsRefused(w: World, others: seq<seq<Step>>, r: RangeRequest)
    requires |others| == RANGE_GAPS && !r.countOnly && r.revision > 0
    ensures r.rangeEnd != "" && r.revision < WorldAt(w, others, 1).Compacted() ==>
              RangeAnswer(w, others, r) == Err(Refused(Compacted))
    ensures RangeAnswer(w, others, r.(rangeEnd := "")) == Err(InvalidRangeEnd)
  {
    hide CountAnswer, DerivedPrefix, TrimNul, CompactRevision, EntriesAt, WorldAt;
    WorldAtSlice(w, others, 0, LIST_GAPS, 1);
    FirstWorld(w, others);
    assert others[0..LIST_GAPS] == others[..LIST_GAPS];
  }

  /** The keys a count at a revision counts in the history: those of the prefix after the start key. */
  function Countable(w: World, r: RangeRequest, at: nat): set<string>
    requires r.rangeEnd != ""
  {
    var prefix := DerivedPrefix(r.rangeEnd);
    Shown(w.hist, RangeStart(prefix, TrimNul(r.key)), GetPrefixRange(prefix).1, at)
  }

  /** The keys of the whole prefix. */
  function Directory(w: World, r: RangeRequest, at: nat): set<string>
    requires r.rangeEnd != ""
  {
    var prefix := DerivedPrefix(r.rangeEnd);
    Shown(w.hist, prefix, GetPrefixRange(prefix).1, at)
  }

  /** A count is answered with the number of keys that have a version at the revision asked for, less those whose
    version has been compacted, which is never refused; with the newest revision of the same moment. */
  lemma CountIsAnswered(w: World, others: seq<seq<Step>>, r: RangeRequest)
    requires Inv(w) && |others| == RANGE_GAPS && r.rangeEnd != "" && r.countOnly
    ensures var at := if r.revision == 0 then w.db.lastId else r.revision;
            var prefix, start := DerivedPrefix(r.rangeEnd), TrimNul(r.key);
            var all := ListSql(w.hist, RangeStart(prefix, start), GetPrefixRange(prefix).1, at);
            var n := CountRevision(w.db.rows, prefix, start, at);
            && |all| == |Countable(w, r, at)|
            && n <= |all| && (n == |all| <==> AllKept(w, all)) && (w.Compacted() <= at ==> n == |all|)
            && (n > 0 ==> RangeAnswer(w, others, r) == Ok(RangeResponse(w.db.lastId, [], false, n)))
  {
    hide Inv, VisibleAt, SortNames, DerivedPrefix, TrimNul, CountRevision, RangeStart, GetPrefixRange, AllKept, MaxId,
         CompactRevision, Shown;
    var at := if r.revision == 0 then w.db.lastId else r.revision;
    var prefix, start := DerivedPrefix(r.rangeEnd), TrimNul(r.key);
    MaxIdIsNewest(w);
    CountIsOfKept(w, prefix, start, at);
    SortNamesSorts(Countable(w, r, at));
    if w.Compacted() <= at { KeptAbove(w, RangeStart(prefix, start), GetPrefixRange(prefix).1, at); }
  }

  lemma KeptAbove(w: World, start: string, end: string, r: nat)
    requires Inv(w) && w.Compacted() <= r
    ensures AllKept(w, ListSql(w.hist, start, end, r))
  {
    hide Inv, VisibleAt, Kept, SortNames, InRange, Names, CompactRevision;
    var events, names := ListSql(w.hist, start, end, r), SortNames(Shown(w.hist, start, end, r));
    forall e | e in events ensures Kept(w.hist, w.Compacted(), e.kv.modRevision) {
      var k :| 0 <= k < |events| && events[k] == e;
      assert names[k] in names;
      VisibleExactly(w, names[k], r);
      VisibleFromCompacted(w, names[k], r);
    }
  }

  /** A count of nothing is done over: for the whole prefix, whatever the start key, at a newer present, and up to a
    thousand keys. */
  lemma ZeroIsRecounted(w: World, others: seq<seq<Step>>, r: RangeRequest)
    requires Inv(w) && |others| == RANGE_GAPS && Interleaved(w, others) && r.rangeEnd != "" && r.countOnly
    requires CountRevision(w.db.rows, DerivedPrefix(r.rangeEnd), TrimNul(r.key),
                           if r.revision == 0 then w.db.lastId else r.revision) == 0
    ensures var now, checked := WorldAt(w, others, 1).db.lastId, WorldAt(w, others, 3);
            RangeAnswer(w, others, r)
            == if now == 0 then Err(NoRevision)
               else if now < checked.Compacted() then Err(Refused(Compacted))
               else Ok(RangeResponse(now, [], false, Min(1000, |Directory(checked, r, now)|)))
  {
    hide Inv, Later, EntriesAt, DerivedPrefix, TrimNul, CountRevision, MaxId, CompactRevision, WorldAt, Interleaved,
         Shown, GetPrefixRange;
    var prefix := DerivedPrefix(r.rangeEnd);
    var again, asked, answered := WorldAt(w, others, 1), WorldAt(w, others, 2), WorldAt(w, others, 3);
    MaxIdIsNewest(w);
    WorldsAreLater(w, others, 1, 2);
    WorldsAreLater(w, others, 2, 3);
    MaxIdIsNewest(again);
    LaterFacts(again, asked);
    LaterFacts(asked, answered);
    TableFacts(again);
    EmptyStore(again);
    if again.db.rows != map[] && again.db.lastId >= answered.Compacted() {
      EntriesAreHistory(asked, answered, prefix, prefix, 1000, again.db.lastId);
      WholeDirectory(answered, r, again.db.lastId);
    }
  }

  lemma EmptyStore(w: World)
    requires Inv(w)
    ensures w.db.rows == map[] <==> w.db.lastId == 0
    ensures w.Compacted() <= w.db.lastId && MaxId(w.db) == w.db.lastId
    ensures w.db.lastId == 0 ==> w.Compacted() == 0
  {
    MaxIdIsNewest(w);
    if w.db.rows != map[] {
      var i :| i in w.db.rows;
      WrittenIds(w, i);
    }
  }

  lemma WholeDirectory(w: World, r: RangeRequest, at: nat)
    requires r.rangeEnd != ""
    ensures |EntriesAt(w.hist, DerivedPrefix(r.rangeEnd), DerivedPrefix(r.rangeEnd), 1000, at)|
         == Min(1000, |Directory(w, r, at)|)
  {
    hide VisibleAt, SortNames, DerivedPrefix, ListRevision, Shown;
    SortNamesSorts(Directory(w, r, at));
  }

  /** What is counted for a cut page of the present: at the revision read after its rows, when the count is made. By
    CountIsOfKept this is what the history has there, less what has been compacted since. */
  function NumberThen(w: World, others: seq<seq<Step>>, r: RangeRequest): nat
    requires |others| == RANGE_GAPS && r.rangeEnd != ""
  {
    CountRevision(WorldAt(w, others, LIST_GAPS + 1).db.rows, DerivedPrefix(r.rangeEnd), TrimNul(r.key),
                  WorldAt(w, others, 1).db.lastId)
  }

  lemma PresentIsListed(w: World, others: seq<seq<Step>>, prefix: string, start: string, limit: nat)
    requires Inv(w) && |others| == RANGE_GAPS && Interleaved(w, others)
    requires EntriesAt(w.db.rows, prefix, start, limit, w.db.lastId) != []
    ensures ListAnswer(w, others[..LIST_GAPS], prefix, start, limit, 0)
         == Ok((WorldAt(w, others, 1).db.lastId, EntriesAt(w.db.rows, prefix, start, limit, w.db.lastId)))
  {
    hide Inv, EntriesAt, WorldAt, Interleaved, MaxId, CompactRevision;
    MaxIdIsNewest(w);
    WorldsAreLater(w, others, 1, 1);
    MaxIdIsNewest(WorldAt(w, others, 1));
    FirstWorld(w, others);
    WorldAtSlice(w, others, 0, LIST_GAPS, 1);
    assert others[0..LIST_GAPS] == others[..LIST_GAPS];
  }

  /** What the handler makes of a list of the present and its count. */
  lemma AnswerIsCutNow(w: World, others: seq<seq<Step>>, r: RangeRequest, kvs: seq<KeyValue>)
    requires |others| == RANGE_GAPS && r.rangeEnd != "" && !r.countOnly && r.revision == 0
    requires ListAnswer(w, others[..LIST_GAPS], DerivedPrefix(r.rangeEnd), TrimNul(r.key),
                        if r.limit > 0 then r.limit + 1 else 0, 0) == Ok((WorldAt(w, others, 1).db.lastId, kvs))
    ensures var rev := WorldAt(w, others, 1).db.lastId;
            var counting := CountAnswer(WorldAt(w, others, LIST_GAPS + 1), others[LIST_GAPS + 1..],
                                        DerivedPrefix(r.rangeEnd), TrimNul(r.key), rev);
            RangeAnswer(w, others, r)
            == if r.limit == 0 || |kvs| <= r.limit then Ok(RangeResponse(rev, kvs, false, |kvs|))
               else if counting.Err? then Err(counting.failure)
               else Ok(RangeResponse(counting.value.0, kvs[..r.limit], true, counting.value.1))
  {
    hide DerivedPrefix, TrimNul, WorldAt, ListAnswer, CountAnswer;
  }

  /** A page of the present shows the snapshot of the moment its rows are read; the revision it carries,
    from which clients go on to list and watch, was read after them, and after the count if there are more. */
  lemma PresentIsAnswered(w: World, others: seq<seq<Step>>, r: RangeRequest)
    requires Inv(w) && |others| == RANGE_GAPS && Interleaved(w, others)
    requires r.rangeEnd != "" && !r.countOnly && r.revision == 0 && RangeAnswer(w, others, r).Ok?
    requires EntriesAt(w.db.rows, DerivedPrefix(r.rangeEnd), TrimNul(r.key), 0, w.db.lastId) != []
    ensures var prefix, start := DerivedPrefix(r.rangeEnd), TrimNul(r.key);
            var all := EntriesAt(WorldAt(w, others, RANGE_GAPS).hist, prefix, start, 0, w.db.lastId);
            var resp := RangeAnswer(w, others, r).value;
            && resp.more == (0 < r.limit < |all|)
            && (if resp.more then resp.kvs == all[..r.limit] && resp.rev >= WorldAt(w, others, 1).db.lastId
                else resp.kvs == all && resp.rev == WorldAt(w, others, 1).db.lastId && resp.count == |all|)
            && (resp.more && NumberThen(w, others, r) > 0 ==>
                  resp.count == NumberThen(w, others, r) && resp.rev == WorldAt(w, others, LIST_GAPS + 1).db.lastId)
  {
    hide Inv, Later, EntriesAt, ListAnswer, CountAnswer, DerivedPrefix, TrimNul, WorldAt, CompactRevision, Interleaved,
         MaxId, RangeAnswer, NumberThen;
    var prefix, start := DerivedPrefix(r.rangeEnd), TrimNul(r.key);
    MaxIdIsNewest(w);
    WorldsAreLater(w, others, 0, RANGE_GAPS);
    FirstWorld(w, others);
    EntriesAreHistory(w, WorldAt(w, others, RANGE_GAPS), prefix, start, 0, w.db.lastId);
    EntriesLimit(w.db.rows, prefix, start, r.limit, w.db.lastId);
    var limit := if r.limit > 0 then r.limit + 1 else 0;
    PresentIsListed(w, others, prefix, start, limit);
    AnswerIsCutNow(w, others, r, EntriesAt(w.db.rows, prefix, start, limit, w.db.lastId));
    WorldsAreLater(w, others, 1, LIST_GAPS + 1);
    LaterFacts(WorldAt(w, others, 1), WorldAt(w, others, LIST_GAPS + 1));
    MaxIdIsNewest(WorldAt(w, others, 1));
    CountIsNoOlder(w, others, prefix, start, WorldAt(w, others, 1).db.lastId);
    if NumberThen(w, others, r) > 0 { PresentCounts(w, others, r); }
  }

  lemma PresentCounts(w: World, others: seq<seq<Step>>, r: RangeRequest)
    requires Inv(w) && |others| == RANGE_GAPS && Interleaved(w, others) && r.rangeEnd != ""
    requires NumberThen(w, others, r) > 0
    ensures CountAnswer(WorldAt(w, others, LIST_GAPS + 1), others[LIST_GAPS + 1..],
                        DerivedPrefix(r.rangeEnd), TrimNul(r.key), WorldAt(w, others, 1).db.lastId)
         == Ok((WorldAt(w, others, LIST_GAPS + 1).db.lastId, NumberThen(w, others, r)))
  {
    hide Inv, Later, DerivedPrefix, TrimNul, WorldAt, CompactRevision, Interleaved, MaxId, EntriesAt, CountRevision;
    var at, counted := WorldAt(w, others, 1).db.lastId, WorldAt(w, others, LIST_GAPS + 1);
    WorldsAreLater(w, others, LIST_GAPS + 1, LIST_GAPS + 1);
    WorldsAreLater(w, others, 1, 1);
    MaxIdIsNewest(counted);
    if at == 0 { NothingAtZero(counted, DerivedPrefix(r.rangeEnd), TrimNul(r.key)); }
    CountsRows(counted, others[LIST_GAPS + 1..], DerivedPrefix(r.rangeEnd), TrimNul(r.key), at);
  }

  /** Nothing is there at revision 0. */
  lemma NothingAtZero(w: World, prefix: string, start: string)
    requires Inv(w)
    ensures CountRevision(w.db.rows, prefix, start, 0) == 0
  {
    hide RangeStart, GetPrefixRange, InRange;
    var (first, end) := (RangeStart(prefix, start), GetPrefixRange(prefix).1);
    forall i | i in w.db.rows ensures i > 0 { WrittenIds(w, i); }
    assert CountedIds(w.db.rows, first, end, 0) == {};
  }

  lemma EntriesLimit(rows: Rows, prefix: string, start: string, limit: nat, r: nat)
    ensures var all := EntriesAt(rows, prefix, start, 0, r);
            var some := EntriesAt(rows, prefix, start, if limit > 0 then limit + 1 else 0, r);
            && (some == [] <==> all == [])
            && (if 0 < limit < |all| then |some| == limit + 1 && some[..limit] == all[..limit] else some == all)
  {
    hide ListSql, EffectiveStart;
    var all := ListRevision(rows, prefix, EffectiveStart(prefix, start), 0, r);
    if 0 < limit < |all| { KvsSlice(all, limit); KvsSlice(all, limit + 1); }
  }

  /** The revision a count carries is read no earlier than its rows. */
  lemma CountIsNoOlder(w: World, others: seq<seq<Step>>, prefix: string, start: string, at: nat)
    requires Inv(w) && |others| == RANGE_GAPS && Interleaved(w, others)
    ensures var counted := WorldAt(w, others, LIST_GAPS + 1);
            match CountAnswer(counted, others[LIST_GAPS + 1..], prefix, start, at)
            case Ok((rev, _)) => rev >= counted.db.lastId
            case Err(_) => true
  {
    hide Inv, Later, EntriesAt, CountRevision, WorldAt, CompactRevision, Interleaved, MaxId;
    var k := LIST_GAPS + 1;
    WorldsAreLater(w, others, k, k + 1);
    LaterFacts(WorldAt(w, others, k), WorldAt(w, others, k + 1));
    MaxIdIsNewest(WorldAt(w, others, k));
    MaxIdIsNewest(WorldAt(w, others, k + 1));
    assert others[k..|others|] == others[k..];
    WorldAtSlice(w, others, k, |others|, 1);
  }

  lemma RangeEndIsGiven(prefix: string)
    requires EndsWithSlash(prefix)
    ensures GetPrefixRange(prefix).1 != ""
  {
  }

  lemma ListedIsNulFree(rows: Rows, prefix: string, k: nat, r: nat)
    requires NamesNulFree(rows) && k < |FullListing(rows, prefix, r)|
    ensures NulFree(FullListing(rows, prefix, r)[k].kv.key)
  {
    hide VisibleAt, SortNames, Less, Names, NulFree;
    var (start, end) := GetPrefixRange(prefix);
    ListedKeys(rows, start, end, r);
  }
}
