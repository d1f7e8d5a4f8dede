/** Every write statement and every gap fill keeps the invariant. */
module Writes {
  import opened Keys
  import opened Table
  import opened History

  lemma EarlierUnchanged(h: Rows, lastId: nat, row: Row, name: string, r: nat)
    requires forall i :: i in h ==> i <= lastId
    requires r <= lastId
    ensures LatestAt(h[lastId + 1 := row], name, r) == LatestAt(h, name, r)
  {
    var h' := h[lastId + 1 := row];
    assert forall i :: i in h' && i <= r ==> i in h && h'[i] == h[i];
  }

  lemma BirthUnchanged(h: Rows, lastId: nat, row: Row, i: nat)
    requires forall j :: j in h ==> j <= lastId
    requires i in h
    ensures Birth(h[lastId + 1 := row], i) == Birth(h, i)
  {
    var h' := h[lastId + 1 := row];
    assert Creates(h', h[i].name, i) == Creates(h, h[i].name, i);
  }

  lemma ChainUnchanged(h: Rows, lastId: nat, row: Row, i: nat)
    requires HistoryOk(h, lastId) && i in h
    ensures ChainOk(h[lastId + 1 := row], i)
  {
    assert ChainOk(h, i);
    EarlierUnchanged(h, lastId, row, h[i].name, i - 1);
    if !h[i].created { BirthUnchanged(h, lastId, row, LatestAt(h, h[i].name, i - 1)); }
  }

  lemma AppendKeepsHistory(h: Rows, lastId: nat, row: Row)
    requires HistoryOk(h, lastId)
    requires ClientKey(row.name) || row.name == COMPACT_KEY
    requires ChainOk(h[lastId + 1 := row], lastId + 1)
    ensures HistoryOk(h[lastId + 1 := row], lastId + 1)
  {
    hide ChainOk;
    forall i | i in h
      ensures ChainOk(h[lastId + 1 := row], i)
    {
      ChainUnchanged(h, lastId, row, i);
    }
  }

  /** The UNIQUE (prev_revision, name) index never refuses a row that names the newest
    row of its key. */
  lemma IndexFree(w: World, row: Row)
    requires Inv(w) && !IsFill(row.name)
    requires row.prevRevision == Latest(w.db.rows, row.name)
    requires row.name == COMPACT_KEY ==> row.prevRevision == 0
    ensures !IndexTaken(w.db.rows, row)
  {
    var h, c, rows := w.hist, w.Compacted(), w.db.rows;
    forall i | i in rows && rows[i].name == row.name
      ensures rows[i].prevRevision != row.prevRevision
    {
      assert i in IdsOf(rows, row.name);
      assert Kept(h, c, i) && ChainOk(h, i);
    }
  }

  lemma AppendKeepsTable(rows: Rows, h: Rows, lastId: nat, c: nat, row: Row)
    requires HistoryOk(h, lastId) && TableOk(rows, h, c) && c <= lastId
    requires Stored(row, c) == row
    ensures TableOk(rows[lastId + 1 := row], h[lastId + 1 := row], c)
  {
    var n := lastId + 1;
    var h' := h[n := row];
    forall i | i in h
      ensures Kept(h', c, i) == Kept(h, c, i)
    {
      EarlierUnchanged(h, lastId, row, h[i].name, c);
    }
  }

  lemma InsertKeepsCompacted(w: World, row: Row)
    requires Inv(w)
    requires row.name == COMPACT_KEY ==> !HasCompactKey(w.db.rows)
    requires row.prevRevision == Latest(w.db.rows, row.name)
    ensures CompactRevision(w.db.rows[w.db.lastId + 1 := row]) == w.Compacted()
    ensures row.name == COMPACT_KEY ==> row.prevRevision == w.Compacted() == 0
    ensures w.db.lastId + 1 !in w.db.rows
  {
    var n := w.db.lastId + 1;
    var rows' := w.db.rows[n := row];
    if row.name == COMPACT_KEY {
      assert IdsOf(w.db.rows, COMPACT_KEY) == {};
      CompactRevisionIs(w.db.rows, 0);
    }
    forall i | i in w.db.rows && w.db.rows[i].name == COMPACT_KEY
      ensures rows'[i].prevRevision == w.Compacted()
    {
      CompactKeyStored(w, i);
    }
    if HasCompactKey(w.db.rows) {
      var i :| i in w.db.rows && w.db.rows[i].name == COMPACT_KEY;
      assert rows'[i].name == COMPACT_KEY;
    } else {
      CompactRevisionIs(w.db.rows, 0);
    }
    CompactRevisionIs(rows', w.Compacted());
  }

  /** A row that continues its key's chain can be inserted, and the invariant survives. */
  lemma InsertKeepsInv(w: World, row: Row)
    requires Inv(w)
    requires ClientKey(row.name) || (row.name == COMPACT_KEY && !HasCompactKey(w.db.rows))
    requires row.prevRevision == Latest(w.db.rows, row.name)
    requires ChainOk(w.hist[w.db.lastId + 1 := row], w.db.lastId + 1)
    ensures var n := w.db.lastId + 1;
            var w' := World(Db(w.db.rows[n := row], n), w.hist[n := row]);
            Insert(w.db, row) == (w'.db, Inserted(n)) && Inv(w') && w'.Compacted() == w.Compacted()
  {
    hide HistoryOk, TableOk, ChainOk, IndexTaken;
    if row.name == COMPACT_KEY { CompactKeyIsNotFill(); }
    InsertKeepsCompacted(w, row);
    IndexFree(w, row);
    AppendKeepsHistory(w.hist, w.db.lastId, row);
    AppendKeepsTable(w.db.rows, w.hist, w.db.lastId, w.Compacted(), row);
  }

  lemma CreateContinuesChain(w: World, key: string, row: Row)
    requires Inv(w) && (ClientKey(key) || key == COMPACT_KEY)
    requires row.name == key && row.created && !row.deleted
    requires row.prevRevision == Latest(w.db.rows, key)
    requires !Live(w, key)
    ensures ChainOk(w.hist[w.db.lastId + 1 := row], w.db.lastId + 1)
  {
    hide TableOk, CompactRevision, Kept;
    CompactKeyIsNotFill();
    TableLatest(w, key);
    EarlierUnchanged(w.hist, w.db.lastId, row, key, w.db.lastId);
  }

  lemma CompactKeyIsLive(w: World)
    requires Inv(w)
    ensures HasCompactKey(w.db.rows) <==> Live(w, COMPACT_KEY)
  {
    hide TableOk, CompactRevision, Kept;
    CompactKeyIsNotFill();
    TableLatest(w, COMPACT_KEY);
    var m, ids := LatestAt(w.hist, COMPACT_KEY, w.db.lastId), IdsOf(w.db.rows, COMPACT_KEY);
    assert m != 0 ==> ChainOk(w.hist, m);
    assert forall i :: i in w.db.rows && w.db.rows[i].name == COMPACT_KEY ==> i in ids;
    if ids != {} { assert w.db.rows[MaxOf(ids)].name == COMPACT_KEY; }
  }

  /** CREATE writes exactly when the key has no live version. */
  lemma CreateKeepsInv(w: World, key: string, value: Blob, lease: int)
    requires Inv(w) && (ClientKey(key) || key == COMPACT_KEY)
    ensures var (db', res) := CreateSql(w.db, key, value, lease);
            if !Live(w, key)
            then var n := w.db.lastId + 1;
                 res == Inserted(n) && n in db'.rows && db'.lastId == n
                 && Inv(World(db', w.hist[n := db'.rows[n]])) && CompactRevision(db'.rows) == w.Compacted()
            else res == NoRows && db' == w.db
  {
    CompactKeyIsNotFill();
    TableLatest(w, key);
    if !Live(w, key) {
      var row := Row(key, true, false, 0, Latest(w.db.rows, key), lease, value, None);
      CreateContinuesChain(w, key, row);
      if key == COMPACT_KEY { CompactKeyIsLive(w); }
      InsertKeepsInv(w, row);
      assert CreateSql(w.db, key, value, lease) == Insert(w.db, row);
    }
  }

  /** UPDATE and DELETE find their row exactly when the key is live at that revision. */
  lemma CurrentIsLive(w: World, key: string, rev: nat)
    requires Inv(w) && ClientKey(key)
    ensures CurrentIs(w.db.rows, key, rev) <==> LiveAtRevision(w, key, rev)
    ensures CurrentIs(w.db.rows, key, rev) ==> rev in w.hist && w.db.rows[rev] == w.hist[rev]
  {
    TableLatest(w, key);
    var m := LatestAt(w.hist, key, w.db.lastId);
    if m != 0 && Kept(w.hist, w.Compacted(), m) {
      assert w.db.rows[m] == w.hist[m];
    }
  }

  lemma VersionContinuesChain(w: World, key: string, rev: nat, row: Row)
    requires Inv(w) && ClientKey(key) && CurrentIs(w.db.rows, key, rev)
    requires row.name == key && !row.created && row.prevRevision == rev
    requires row.createRevision == BirthColumn(rev, w.db.rows[rev]) && row.oldValue == w.db.rows[rev].value
    ensures ChainOk(w.hist[w.db.lastId + 1 := row], w.db.lastId + 1)
  {
    hide TableOk, CurrentIs, CompactRevision, Birth;
    CurrentIsLive(w, key, rev);
    EarlierUnchanged(w.hist, w.db.lastId, row, key, w.db.lastId);
    BirthUnchanged(w.hist, w.db.lastId, row, rev);
    BirthIsStored(w.hist, w.db.lastId, rev);
  }

  /** A version written on top of the live one keeps the invariant. */
  lemma VersionKeepsInv(w: World, key: string, rev: nat, row: Row)
    requires Inv(w) && ClientKey(key) && CurrentIs(w.db.rows, key, rev)
    requires row.name == key && !row.created && row.prevRevision == rev
    requires row.createRevision == BirthColumn(rev, w.db.rows[rev]) && row.oldValue == w.db.rows[rev].value
    ensures var n := w.db.lastId + 1;
            var w' := World(Db(w.db.rows[n := row], n), w.hist[n := row]);
            Insert(w.db, row) == (w'.db, Inserted(n)) && Inv(w') && w'.Compacted() == w.Compacted()
  {
    VersionContinuesChain(w, key, rev, row);
    InsertKeepsInv(w, row);
  }

  /** UPDATE writes a version on top of the live one, and only if it is at that revision. */
  lemma UpdateKeepsInv(w: World, key: string, value: Blob, rev: nat, lease: int)
    requires Inv(w) && ClientKey(key)
    ensures var (db', res) := UpdateSql(w.db, key, value, rev, lease);
            if LiveAtRevision(w, key, rev)
            then var n := w.db.lastId + 1;
                 res == Inserted(n) && n in db'.rows && db'.lastId == n
                 && Inv(World(db', w.hist[n := db'.rows[n]])) && CompactRevision(db'.rows) == w.Compacted()
            else res == NoRows && db' == w.db
  {
    CurrentIsLive(w, key, rev);
    if CurrentIs(w.db.rows, key, rev) {
      var cur := w.db.rows[rev];
      VersionKeepsInv(w, key, rev, Row(key, false, false, BirthColumn(rev, cur), rev, lease, value, cur.value));
    }
  }

  /** DELETE writes a tombstone on top of the live version, and only if it is at that revision. */
  lemma DeleteKeepsInv(w: World, key: string, rev: nat)
    requires Inv(w) && ClientKey(key)
    ensures var (db', res) := DeleteSql(w.db, key, rev);
            if LiveAtRevision(w, key, rev)
            then var n := w.db.lastId + 1;
                 res == Inserted(n) && n in db'.rows && db'.lastId == n
                 && Inv(World(db', w.hist[n := db'.rows[n]])) && CompactRevision(db'.rows) == w.Compacted()
            else res == NoRows && db' == w.db
  {
    CurrentIsLive(w, key, rev);
    if CurrentIs(w.db.rows, key, rev) {
      var cur := w.db.rows[rev];
      assert cur.name == key by { assert rev in IdsOf(w.db.rows, key); }
      VersionKeepsInv(w, key, rev, Row(key, false, true, BirthColumn(rev, cur), rev, cur.lease, None, cur.value));
    }
  }

  // ---------------------------------------------------------------- fills keep the invariant

  /** Fill succeeds exactly at a missing id, and never touches a row that is there. */
  lemma FillKeepsInv(w: World, id: nat)
    requires Inv(w) && 1 <= id <= w.db.lastId
    ensures var (db', res) := FillSql(w.db, id);
            && (res == if id in w.db.rows then Violation else Inserted(id))
            && db' == (if id in w.db.rows then w.db
                       else w.db.(rows := w.db.rows[id := Row("gap-" + Decimal(id), false, true, 0, 0, 0, None, None)]))
            && Inv(World(db', w.hist)) && CompactRevision(db'.rows) == w.Compacted()
  {
    if id !in w.db.rows {
      assert !IndexTaken(w.db.rows, FillRow(id)) by { FillIndexFree(w, id); }
      var rows' := w.db.rows[id := FillRow(id)];
      assert CompactRevision(rows') == w.Compacted() by { FillKeepsCompacted(w, id); }
      assert !Kept(w.hist, w.Compacted(), id);
      assert TableOk(rows', w.hist, w.Compacted());
    }
  }

  lemma FillIndexFree(w: World, id: nat)
    requires Inv(w) && id in w.hist && id !in w.db.rows
    ensures !IndexTaken(w.db.rows, FillRow(id))
  {
    forall i | i in w.db.rows
      ensures w.db.rows[i].name != FillName(id)
    {
      CompactKeyIsNotFill();
      if Kept(w.hist, w.Compacted(), i) {
        assert !IsFill(w.hist[i].name);
      } else if FillName(i) == FillName(id) {
        FillNameInjective(i, id);
      }
    }
  }

  lemma FillKeepsCompacted(w: World, id: nat)
    requires Inv(w) && id !in w.db.rows
    ensures CompactRevision(w.db.rows[id := FillRow(id)]) == w.Compacted()
  {
    CompactKeyIsNotFill();
    var rows' := w.db.rows[id := FillRow(id)];
    forall i | i in w.db.rows && w.db.rows[i].name == COMPACT_KEY
      ensures rows'[i].prevRevision == w.Compacted()
    {
      CompactKeyStored(w, i);
    }
    if HasCompactKey(w.db.rows) {
      var i :| i in w.db.rows && w.db.rows[i].name == COMPACT_KEY;
      assert rows'[i].name == COMPACT_KEY;
    } else {
      CompactRevisionIs(w.db.rows, 0);
    }
    CompactRevisionIs(rows', w.Compacted());
  }
}
