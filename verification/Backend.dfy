/** The store behind the etcd front end: list, count and get. Each of them runs several statements,
  and `others` says what everyone else does between them. */
module Backend {
  import opened Keys
  import opened Table
  import opened History
  import opened Runs
  import opened Snapshots
  import opened Listing
  import opened Pagination
  import opened Driver

  datatype Failure = Refused(error: Error) | NoRevision | InvalidRangeEnd | Unsupported

  datatype Result<+T> = Ok(value: T) | Err(failure: Failure)

  function Kvs(events: seq<Event>): (kvs: seq<KeyValue>)
    ensures |kvs| == |events|
  {
    seq(|events|, k requires 0 <= k < |events| => events[k].kv)
  }

  /** The entries of a list query at a revision. */
  function EntriesAt(rows: Rows, prefix: string, startKey: string, limit: nat, r: nat): seq<KeyValue> {
    Kvs(ListRevision(rows, prefix, EffectiveStart(prefix, startKey), limit, r))
  }

  /** A start key is followed only within a directory, and only if it is not the directory itself. */
  lemma StartIsFollowed(rows: Rows, prefix: string, startKey: string, limit: nat, r: nat)
    ensures !EndsWithSlash(prefix) || startKey == prefix ==>
              EntriesAt(rows, prefix, startKey, limit, r) == EntriesAt(rows, prefix, "", limit, r)
    ensures EndsWithSlash(prefix) && startKey != prefix && startKey != "" ==>
              EntriesAt(rows, prefix, startKey, 0, r)
              == Kvs(ListSql(rows, startKey + [ONE], GetPrefixRange(prefix).1, r))
  {
    hide ListSql;
  }

  /** A list at a revision: the rows are read in one world, the compact revision in another. */
  function ListAt(asked: World, answered: World, prefix: string, startKey: string, limit: nat, r: nat)
    : Result<(nat, seq<KeyValue>)>
  {
    if r < answered.Compacted() then Err(Refused(Compacted))
    else Ok((r, EntriesAt(asked.db.rows, prefix, startKey, limit, r)))
  }

  /** What a list answers: at the present, the revision is read after the rows, and an empty answer is
    asked again at the revision read then. */
  function ListAnswer(w: World, others: seq<seq<Step>>, prefix: string, startKey: string, limit: nat, revision: nat)
    : Result<(nat, seq<KeyValue>)>
    requires |others| >= if revision == 0 then 4 else 1
  {
    var now := EntriesAt(w.db.rows, prefix, startKey, limit, MaxId(w.db));
    var again := if revision == 0 then WorldAt(w, others, 2) else w;
    if revision > 0 then ListAt(w, WorldAt(w, others, 1), prefix, startKey, limit, revision)
    else if now != [] then Ok((MaxId(WorldAt(w, others, 1).db), now))
    else if again.db.rows == map[] then Err(NoRevision)
    else ListAt(WorldAt(w, others, 3), WorldAt(w, others, 4), prefix, startKey, limit, MaxId(again.db))
  }

  /** The revision whose snapshot a list shows. */
  function ShownAt(w: World, others: seq<seq<Step>>, prefix: string, startKey: string, limit: nat, revision: nat): nat
    requires |others| >= if revision == 0 then 4 else 1
  {
    if revision > 0 then (if revision < w.db.lastId then revision else w.db.lastId)
    else if EntriesAt(w.db.rows, prefix, startKey, limit, MaxId(w.db)) != [] then w.db.lastId
    else WorldAt(w, others, 2).db.lastId
  }

  // ---------------------------------------------------------------- lists show the history

  lemma FutureIsPresent(w: World, name: string, r: nat)
    requires Inv(w) && r >= w.db.lastId
    ensures VisibleAt(w.db.rows, name, r) == VisibleAt(w.db.rows, name, w.db.lastId)
  {
    var a, b := LatestAt(w.db.rows, name, r), LatestAt(w.db.rows, name, w.db.lastId);
    assert a != 0 ==> a in w.db.rows;
    assert b != 0 ==> b in w.db.rows;
  }

  /** Entries read in one world are those of the history ever after, if the revision asked for had not
    been compacted when they were read. */
  lemma EntriesAreHistory(asked: World, w: World, prefix: string, startKey: string, limit: nat, r: nat)
    requires Inv(asked) && Inv(w) && Later(asked, w) && asked.Compacted() <= r
    ensures var at := if r < asked.db.lastId then r else asked.db.lastId;
            EntriesAt(asked.db.rows, prefix, startKey, limit, r) == EntriesAt(w.hist, prefix, startKey, limit, at)
  {
    hide Inv, Later, VisibleAt, EventsAt, SortNames, InRange, Names, ListRevision, EffectiveStart;
    var at := if r < asked.db.lastId then r else asked.db.lastId;
    MaxIdIsNewest(asked);
    forall n ensures VisibleAt(asked.db.rows, n, r) == VisibleAt(w.hist, n, at) {
      if r >= asked.db.lastId { FutureIsPresent(asked, n, r); }
      VisibleFromCompacted(asked, n, at);
      VisibleIsStable(asked, w, n, at);
    }
    var start, end := RangeStart(prefix, EffectiveStart(prefix, startKey)), GetPrefixRange(prefix).1;
    SameEventsSameList(asked.db.rows, w.hist, start, end, r, at);
  }

  /** Every answer is the true listing at the revision it shows, and the revision it carries is no older.
    It is newer only for a list of the present, by what was written between the two reads, or for a
    revision that was in the future. */
  lemma ListIsTrue(w: World, others: seq<seq<Step>>, prefix: string, startKey: string, limit: nat, revision: nat)
    requires Inv(w) && Interleaved(w, others) && |others| >= if revision == 0 then 4 else 1
    requires ListAnswer(w, others, prefix, startKey, limit, revision).Ok?
    ensures var (rev, kvs) := ListAnswer(w, others, prefix, startKey, limit, revision).value;
            var at := ShownAt(w, others, prefix, startKey, limit, revision);
            && kvs == EntriesAt(WorldAt(w, others, |others|).hist, prefix, startKey, limit, at)
            && at <= rev
            && (rev == at <==> if revision > 0 then revision <= w.db.lastId
                               else at > w.db.lastId || kvs == [] || WorldAt(w, others, 1).db.lastId == w.db.lastId)
  {
    hide Inv, Later, EntriesAt, WorldAt, CompactRevision, Interleaved, MaxId;
    var last := |others|;
    WorldsAreLater(w, others, 0, 1);
    WorldsAreLater(w, others, 1, last);
    MaxIdIsNewest(w);
    MaxIdIsNewest(WorldAt(w, others, 1));
    FirstWorld(w, others);
    LaterFacts(w, WorldAt(w, others, 1));
    LaterTransitive(w, WorldAt(w, others, 1), WorldAt(w, others, last));
    if revision > 0 {
      EntriesAreHistory(w, WorldAt(w, others, last), prefix, startKey, limit, revision);
    } else if EntriesAt(w.db.rows, prefix, startKey, limit, MaxId(w.db)) != [] {
      EntriesAreHistory(w, WorldAt(w, others, last), prefix, startKey, limit, MaxId(w.db));
    } else {
      WorldsAreLater(w, others, 1, 2);
      LaterFacts(WorldAt(w, others, 1), WorldAt(w, others, 2));
      WorldsAreLater(w, others, 2, 3);
      WorldsAreLater(w, others, 3, 4);
      WorldsAreLater(w, others, 3, last);
      MaxIdIsNewest(WorldAt(w, others, 2));
      LaterFacts(WorldAt(w, others, 2), WorldAt(w, others, 3));
      LaterFacts(WorldAt(w, others, 3), WorldAt(w, others, 4));
      EntriesAreHistory(WorldAt(w, others, 3), WorldAt(w, others, last), prefix, startKey,
                        limit, WorldAt(w, others, 2).db.lastId);
    }
  }

  lemma FirstWorld(w: World, others: seq<seq<Step>>)
    ensures WorldAt(w, others, 0) == w
  {
  }

  lemma LaterFacts(w: World, w': World)
    requires Later(w, w')
    ensures w.db.lastId <= w'.db.lastId && w.Compacted() <= w'.Compacted()
  {
  }

  // ---------------------------------------------------------------- counts

  /** A count in one statement, or a recount of the whole prefix if it is zero. */
  function CountAnswer(w: World, others: seq<seq<Step>>, prefix: string, startKey: string, revision: nat)
    : Result<(nat, nat)>
    requires |others| >= 3
  {
    var n := CountRevision(w.db.rows, prefix, startKey, if revision == 0 then MaxId(w.db) else revision);
    if n > 0 then Ok((MaxId(w.db), n))
    else
      var again := WorldAt(w, others, 1);
      if again.db.rows == map[] then Err(NoRevision)
      else match ListAt(WorldAt(w, others, 2), WorldAt(w, others, 3), prefix, prefix, 1000, MaxId(again.db))
           case Ok((rev, kvs)) => Ok((rev, |kvs|))
           case Err(f) => Err(f)
  }

  // ---------------------------------------------------------------- gets

  /** The first entry under a key taken for a prefix. */
  function FirstOf(rows: Rows, key: string, r: nat): Option<KeyValue> {
    var listing := FullListing(rows, key, r);
    if listing == [] then None else Some(listing[0].kv)
  }

  lemma OneKeySorted(key: string)
    ensures SortNames({key}) == [key]
  {
    assert {key} - {MaxName({key})} == {};
  }

  /** A query for a single key shows that key's version or nothing. */
  lemma SingleKeyListing(rows: Rows, key: string, limit: nat, r: nat)
    requires NamesNulFree(rows) && !EndsWithSlash(key)
    ensures ListRevision(rows, key, "", limit, r)
         == match VisibleAt(rows, key, r) { case Some(e) => [e] case None => [] }
  {
    hide VisibleAt, SortNames, Less, Names;
    var (start, end) := GetPrefixRange(key);
    var shown := Shown(rows, start, end, r);
    forall n | n in shown ensures n == key { SingletonRangeExact(key, n); }
    if VisibleAt(rows, key, r).Some? {
      VisibleIsNamed(rows, key, r);
      assert InRange(key, start, end) by { SingletonRangeExact(key, key); }
      assert shown == {key};
      OneKeySorted(key);
    } else {
      assert shown == {};
      assert SortNames({}) == [] by { SortNamesEmpty(); }
    }
  }

  /** What a key holds at a revision. */
  function HeldAt(rows: Rows, key: string, r: nat): Option<KeyValue> {
    match VisibleAt(rows, key, r)
    case Some(e) => Some(e.kv)
    case None => None
  }

  /** A get finds what its key holds, if and only if the key is no directory, or is there, or nothing is listed
    under it: of an absent directory it finds the first entry below. */
  lemma FirstIsVisible(rows: Rows, key: string, r: nat)
    requires NamesNulFree(rows)
    ensures FirstOf(rows, key, r) == HeldAt(rows, key, r)
       <==> !EndsWithSlash(key) || HeldAt(rows, key, r).Some? || FullListing(rows, key, r) == []
  {
    hide VisibleAt, ListRevision;
    if !EndsWithSlash(key) {
      SingleKeyListing(rows, key, 0, r);
    } else if VisibleAt(rows, key, r).Some? {
      PrefixIsListedFirst(rows, key, r);
      ListedAreVisible(rows, key, r, 0);
    }
  }

  /** Every entry of a listing is what its key holds. */
  lemma ListedAreVisible(rows: Rows, prefix: string, r: nat, k: nat)
    requires k < |FullListing(rows, prefix, r)|
    ensures var e := FullListing(rows, prefix, r)[k]; VisibleAt(rows, e.kv.key, r) == Some(e)
  {
    hide VisibleAt, SortNames, InRange, Names;
    var (start, end) := GetPrefixRange(prefix);
    ListedKeys(rows, start, end, r);
    var names := SortNames(Shown(rows, start, end, r));
    assert names[k] in names;
  }

  /** What a get finds is always what some key holds. */
  lemma FirstIsHeld(rows: Rows, key: string, r: nat)
    requires FirstOf(rows, key, r).Some?
    ensures var kv := FirstOf(rows, key, r).value;
            HeldAt(rows, kv.key, r) == Some(kv) && kv.modRevision == LatestAt(rows, kv.key, r)
  {
    hide VisibleAt, ListRevision;
    ListedAreVisible(rows, key, r, 0);
    VisibleIsLatest(rows, FirstOf(rows, key, r).value.key, r);
  }

  lemma VisibleIsLatest(rows: Rows, name: string, r: nat)
    requires VisibleAt(rows, name, r).Some?
    ensures VisibleAt(rows, name, r).value.kv.modRevision == LatestAt(rows, name, r)
    ensures VisibleAt(rows, name, r).value.kv.key == name
  {
    assert rows[LatestAt(rows, name, r)].name == name;
  }

  /** From the compact revision on, a get finds what the history has there. */
  lemma FirstIsHistory(asked: World, w: World, key: string, r: nat)
    requires Inv(asked) && Inv(w) && Later(asked, w) && asked.Compacted() <= r
    ensures FirstOf(asked.db.rows, key, r) == FirstOf(w.hist, key, if r < asked.db.lastId then r else asked.db.lastId)
  {
    hide Inv, Later, ListRevision;
    EntriesAreHistory(asked, w, key, "", 0, r);
    var at := if r < asked.db.lastId then r else asked.db.lastId;
    var a, b := FullListing(asked.db.rows, key, r), FullListing(w.hist, key, at);
    assert Kvs(a) == Kvs(b);
    assert a != [] ==> a[0].kv == Kvs(a)[0];
    assert b != [] ==> b[0].kv == Kvs(b)[0];
  }

  /** The revision that goes with a get of the present: read after the row, and once more if the table was
    empty then. */
  function RevisionRead(w: World, others: seq<seq<Step>>): nat
    requires |others| >= 2
  {
    var high := MaxId(WorldAt(w, others, 1).db);
    if high == 0 then MaxId(WorldAt(w, others, 2).db) else high
  }

  // ---------------------------------------------------------------- the object

  lemma TableFacts(w: World)
    requires Inv(w)
    ensures 0 !in w.db.rows
    ensures w.db.rows != map[] ==> MaxId(w.db) > 0
  {
    WrittenIds(w, 0);
    if w.db.rows != map[] {
      var i :| i in w.db.rows;
      assert i <= MaxId(w.db);
    }
  }

  lemma CountIsNewest(db: Db, prefix: string, startKey: string)
    requires 0 !in db.rows
    ensures CountCurrent(db.rows, prefix, startKey) == CountRevision(db.rows, prefix, startKey, MaxId(db))
  {
    CurrentIsNewestRevision(db.rows, prefix, startKey, 0);
  }

  lemma CurrentIsNewest(db: Db, prefix: string, startKey: string, limit: nat)
    requires 0 !in db.rows
    ensures var start := EffectiveStart(prefix, startKey);
            ListCurrent(db.rows, prefix, start, limit) == ListRevision(db.rows, prefix, start, limit, MaxId(db))
  {
    CurrentIsNewestRevision(db.rows, prefix, EffectiveStart(prefix, startKey), limit);
  }

  /** What others do after the first k runs. */
  lemma SuffixOf(w: World, others: seq<seq<Step>>, k: nat)
    requires Interleaved(w, others) && k < |others|
    ensures Interleaved(WorldAt(w, others, k), others[k..])
    ensures WorldAt(WorldAt(w, others, k), others[k..], |others| - k) == WorldAt(w, others, |others|)
    ensures WorldAt(WorldAt(w, others, k), others[k..], 1) == WorldAt(w, others, k + 1)
  {
    hide WorldAt, Interleaved;
    assert others[k..|others|] == others[k..];
    WorldAtSlice(w, others, k, |others|, |others| - k);
    WorldAtSlice(w, others, k, |others|, 1);
    InterleavedSlice(w, others, k, |others|);
  }

  class LogStructured {
    const d: Generic

    constructor (d: Generic)
      ensures this.d == d
    {
      this.d := d;
    }

    /** Rows first, then the revisions. An empty answer about the present is asked again at the current
      revision, and only once. */
    method List(prefix: string, startKey: string, limit: nat, revision: nat, others: seq<seq<Step>>)
      returns (res: Result<(nat, seq<KeyValue>)>)
      requires d.Valid() && Interleaved(d.World(), others)
      requires |others| >= if revision == 0 then 4 else 1
      modifies d
      ensures d.Valid() && d.World() == WorldAt(old(d.World()), others, |others|)
      ensures res == ListAnswer(old(d.World()), others, prefix, startKey, limit, revision)
      decreases revision == 0
    {
      hide Inv, ListCurrent, ListRevision, MaxId, CompactRevision, Run, ValidRun, EffectiveStart;
      ghost var w := d.World();
      TableFacts(w);
      CurrentIsNewest(d.View(), prefix, startKey, limit);
      var start := EffectiveStart(prefix, startKey);
      var events := if revision == 0 then ListCurrent(d.rows, prefix, start, limit)
                    else ListRevision(d.rows, prefix, start, limit, revision);
      d.Others(others[0]);
      var compact, rev := d.GetCompactRevision();
      if revision > 0 && revision < compact {
        d.Rest(w, others, 1);
        return Err(Refused(Compacted));
      }
      if revision == 0 && |events| == 0 {
        d.Others(others[1]);
        TableFacts(d.World());
        if d.rows == map[] {
          d.Rest(w, others, 2);
          return Err(NoRevision);
        }
        var currentRev := MaxId(d.View());
        d.Others(others[2]);
        SuffixOf(w, others, 3);
        res := List(prefix, startKey, limit, currentRev, others[3..]);
        return;
      } else if revision != 0 {
        rev := revision;
      }
      d.Rest(w, others, 1);
      res := Ok((rev, Kvs(events)));
    }

    /** The count, or a recount from the prefix when it is zero. */
    method Count(prefix: string, startKey: string, revision: nat, others: seq<seq<Step>>)
      returns (res: Result<(nat, nat)>)
      requires d.Valid() && Interleaved(d.World(), others) && |others| >= 3
      modifies d
      ensures d.Valid() && d.World() == WorldAt(old(d.World()), others, |others|)
      ensures res == CountAnswer(old(d.World()), others, prefix, startKey, revision)
    {
      hide Inv, CountCurrent, CountRevision, ListAt, MaxId, Run, ValidRun;
      ghost var w := d.World();
      TableFacts(w);
      CountIsNewest(d.View(), prefix, startKey);
      var rev := MaxId(d.View());
      var count := if revision == 0 then CountCurrent(d.rows, prefix, startKey)
                   else CountRevision(d.rows, prefix, startKey, revision);
      if count == 0 {
        d.Others(others[0]);
        TableFacts(d.World());
        if d.rows == map[] {
          d.Rest(w, others, 1);
          return Err(NoRevision);
        }
        var currentRev := MaxId(d.View());
        d.Others(others[1]);
        SuffixOf(w, others, 2);
        var answer := List(prefix, prefix, 1000, currentRev, others[2..]);
        match answer {
          case Ok((r, kvs)) => res := Ok((r, |kvs|));
          case Err(f) => res := Err(f);
        }
      } else {
        d.Rest(w, others, 0);
        res := Ok((rev, count));
      }
    }

    /** The first entry under the key; a revision that has been compacted is not refused here. */
    method Get(key: string, limit: nat, revision: nat, others: seq<seq<Step>>) returns (rev: nat, kv: Option<KeyValue>)
      requires d.Valid() && Interleaved(d.World(), others) && |others| >= 2
      modifies d
      ensures d.Valid() && d.World() == WorldAt(old(d.World()), others, |others|)
      ensures rev == if revision == 0 then RevisionRead(old(d.World()), others) else revision
      ensures kv == FirstOf(old(d.rows), key, if revision == 0 then MaxId(old(d.View())) else revision)
    {
      hide Inv, ListCurrent, ListRevision, MaxId, CompactRevision, Run, ValidRun;
      ghost var w := d.World();
      TableFacts(w);
      CurrentIsNewest(d.View(), key, "", limit);
      LimitKeepsFirst(d.rows, key, limit, if revision == 0 then MaxId(d.View()) else revision);
      var start := EffectiveStart(key, "");
      var events := if revision == 0 then ListCurrent(d.rows, key, start, limit)
                    else ListRevision(d.rows, key, start, limit, revision);
      d.Others(others[0]);
      var _, high := d.GetCompactRevision();
      rev := high;
      if revision != 0 {
        rev := revision;
      }
      d.Others(others[1]);
      if rev == 0 {
        rev := MaxId(d.View());
      }
      d.Rest(w, others, 2);
      if |events| == 0 {
        kv := None;
      } else {
        kv := Some(events[0].kv);
      }
    }
  }

  lemma LimitKeepsFirst(rows: Rows, key: string, limit: nat, r: nat)
    ensures var all, some := FullListing(rows, key, r), ListRevision(rows, key, EffectiveStart(key, ""), limit, r);
            (all == [] <==> some == []) && (all != [] ==> some[0] == all[0])
  {
    hide ListSql;
  }
}
