/** The history behind the table, and the invariant that ties the two together.

  A world is a table plus every row ever written to it. The invariant says that the
  table is a function of the history and of the compact revision: it holds exactly the
  rows written after the compact revision and the version each live key had at it,
  apart from the gap rows the poller fills in. */
module History {
  import opened Keys
  import opened Table

  const SUPERSEDED_COUNT: nat := 100

  datatype World = World(db: Db, hist: Rows) {
    function Compacted(): nat {
      CompactRevision(db.rows)
    }
  }

  const INIT: World := World(EMPTY, map[])

  // ---------------------------------------------------------------- history

  /** Id of the create that began the incarnation row i belongs to. */
  function Birth(h: Rows, i: nat): nat
    requires i in h
  {
    MaxOf(Creates(h, h[i].name, i))
  }

  function Creates(h: Rows, name: string, r: nat): set<nat> {
    set j | j in h && h[j].name == name && h[j].created && j <= r
  }

  /** Row i is a create of a dead key, or follows the live version it names. */
  predicate ChainOk(h: Rows, i: nat)
    requires i in h && i > 0
  {
    var row := h[i];
    var p := LatestAt(h, row.name, i - 1);
    if row.created then
      && !row.deleted
      && (p == 0 || (p in h && h[p].deleted))
      && (row.prevRevision == 0 || row.prevRevision == p)
    else
      && p != 0 && p in h && !h[p].deleted
      && row.prevRevision == p
      && row.createRevision == Birth(h, p)
      && row.oldValue == h[p].value
      && row.name != COMPACT_KEY
  }

  ghost predicate HistoryOk(h: Rows, lastId: nat) {
    && (forall i :: i in h <==> 1 <= i <= lastId)
    && (forall i {:trigger ChainOk(h, i)} :: i in h ==> ChainOk(h, i))
    && (forall i :: i in h ==> ClientKey(h[i].name) || h[i].name == COMPACT_KEY)
  }

  // ---------------------------------------------------------------- table as a function of history

  /** Row i survives a compaction to c: it is newer, or it is the live version at c. */
  predicate Kept(h: Rows, c: nat, i: nat) {
    i in h && (i > c || (!h[i].deleted && LatestAt(h, h[i].name, c) == i))
  }

  /** The bookkeeping row carries the compact revision in prev_revision. */
  function Stored(row: Row, c: nat): Row {
    if row.name == COMPACT_KEY then row.(prevRevision := c) else row
  }

  ghost predicate TableOk(rows: Rows, h: Rows, c: nat) {
    && rows.Keys <= h.Keys
    && (forall i {:trigger Kept(h, c, i)} :: i in h && Kept(h, c, i) ==> i in rows)
    && (forall i :: i in rows ==> rows[i] == if Kept(h, c, i) then Stored(h[i], c) else FillRow(i))
  }

  ghost predicate Inv(w: World) {
    && HistoryOk(w.hist, w.db.lastId)
    && TableOk(w.db.rows, w.hist, w.Compacted())
    && (w.Compacted() == 0 || w.Compacted() + SUPERSEDED_COUNT <= w.db.lastId)
  }

  /** The written ids are those from 1 to the newest, and the table has no others. */
  lemma WrittenIds(w: World, i: nat)
    requires Inv(w)
    ensures i in w.hist <==> 0 < i <= w.db.lastId
    ensures i in w.db.rows ==> i in w.hist
  {
  }

  /** The newest version of the key is not a tombstone. */
  predicate Live(w: World, key: string) {
    var m := LatestAt(w.hist, key, w.db.lastId);
    m != 0 && !w.hist[m].deleted
  }

  predicate LiveAtRevision(w: World, key: string, rev: nat) {
    Live(w, key) && LatestAt(w.hist, key, w.db.lastId) == rev
  }

  // ---------------------------------------------------------------- steps

  datatype Step =
    | Create(key: string, value: Blob, lease: int)
    | Update(key: string, value: Blob, rev: nat, lease: int)
    | Delete(key: string, rev: nat)
    | CompactStart
    | Fill(id: nat)
    | Compact(start: nat, end: nat)

  function Exec(db: Db, s: Step): (r: (Db, ExecResult))
    ensures r.1.Inserted? ==> r.1.id !in db.rows && r.1.id in r.0.rows
  {
    match s
    case Create(key, value, lease) => CreateSql(db, key, value, lease)
    case Update(key, value, rev, lease) => UpdateSql(db, key, value, rev, lease)
    case Delete(key, rev) => DeleteSql(db, key, rev)
    case CompactStart => CreateSql(db, COMPACT_KEY, Some(""), 0)
    case Fill(id) => FillSql(db, id)
    case Compact(start, end) => (TryCompact(db, start, end), NoRows)
  }

  /** When the system takes a step: clients use client keys, the poller fills ids below the
    newest, and a compactor works from a compact revision it read at some earlier moment
    and never reaches into the newest hundred ids. */
  predicate Enabled(w: World, s: Step) {
    Possible(w.db, s)
  }

  predicate Possible(db: Db, s: Step) {
    match s
    case Create(key, _, _) => ClientKey(key)
    case Update(key, _, _, _) => ClientKey(key)
    case Delete(key, _) => ClientKey(key)
    case CompactStart => true
    case Fill(id) => 1 <= id <= db.lastId
    case Compact(start, end) =>
      start <= CompactRevision(db.rows) && end + SUPERSEDED_COUNT <= db.lastId && HasCompactKey(db.rows)
  }

  function Apply(w: World, s: Step): World {
    var (db, res) := Exec(w.db, s);
    World(db, if res.Inserted? && !s.Fill? then w.hist[res.id := db.rows[res.id]] else w.hist)
  }

  predicate ValidRun(w: World, steps: seq<Step>)
    decreases |steps|
  {
    steps == [] || (Enabled(w, steps[0]) && ValidRun(Apply(w, steps[0]), steps[1..]))
  }

  function Run(w: World, steps: seq<Step>): World
    decreases |steps|
  {
    if steps == [] then w else Run(Apply(w, steps[0]), steps[1..])
  }

  // ---------------------------------------------------------------- facts about the invariant

  lemma CompactKeyUnique(h: Rows, lastId: nat, i: nat, j: nat)
    requires HistoryOk(h, lastId)
    requires i in h && j in h && h[i].name == h[j].name == COMPACT_KEY
    ensures i == j
  {
    assert ChainOk(h, i) && ChainOk(h, j);
    var p := LatestAt(h, COMPACT_KEY, if i < j then j - 1 else i - 1);
    if p in h { assert ChainOk(h, p); }
  }

  /** The bookkeeping rows agree on the compact revision, so the MAX over them is it. */
  lemma CompactRevisionIs(rows: Rows, c: nat)
    requires forall i :: i in rows && rows[i].name == COMPACT_KEY ==> rows[i].prevRevision == c
    requires HasCompactKey(rows) || c == 0
    ensures CompactRevision(rows) == c
  {
    var s := set i | i in rows && rows[i].name == COMPACT_KEY :: rows[i].prevRevision;
    assert s <= {c};
    if HasCompactKey(rows) {
      var i :| i in rows && rows[i].name == COMPACT_KEY;
      assert rows[i].prevRevision in s;
    }
  }

  lemma CompactKeyStored(w: World, i: nat)
    requires Inv(w) && i in w.db.rows && w.db.rows[i].name == COMPACT_KEY
    ensures i in w.hist && w.hist[i].name == COMPACT_KEY && w.db.rows[i].prevRevision == w.Compacted()
  {
    CompactKeyIsNotFill();
    assert w.db.rows[i] != FillRow(i);
  }

  /** Which row of a name the table still shows as its newest. */
  lemma TableLatest(w: World, key: string)
    requires Inv(w) && !IsFill(key)
    ensures var m := LatestAt(w.hist, key, w.db.lastId);
            var ids := IdsOf(w.db.rows, key);
            if m != 0 && Kept(w.hist, w.Compacted(), m)
            then ids != {} && MaxOf(ids) == m && m in w.db.rows && w.db.rows[m] == Stored(w.hist[m], w.Compacted())
            else ids == {} && (m == 0 || w.hist[m].deleted)
  {
    var h, c, rows := w.hist, w.Compacted(), w.db.rows;
    var m := LatestAt(h, key, w.db.lastId);
    var ids := IdsOf(rows, key);
    forall i | i in ids
      ensures Kept(h, c, i) && h[i].name == key && i <= m
    {
      assert rows[i].name == key;
    }
    if m != 0 {
      if Kept(h, c, m) {
        assert m in ids;
      } else {
        assert LatestAt(h, key, c) == m;
      }
    }
  }

  /** The stored create_revision is the id of the create that began the incarnation. */
  lemma BirthIsStored(h: Rows, lastId: nat, i: nat)
    requires HistoryOk(h, lastId) && i in h
    ensures BirthColumn(i, h[i]) == Birth(h, i)
  {
    assert ChainOk(h, i);
    if h[i].created {
      assert i in Creates(h, h[i].name, i);
    } else {
      var p := LatestAt(h, h[i].name, i - 1);
      assert Creates(h, h[i].name, i) == Creates(h, h[p].name, p);
    }
  }
}
