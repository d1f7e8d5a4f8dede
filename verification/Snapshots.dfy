/** What a reader sees at a revision, and when that is the truth. */
module Snapshots {
  import opened Keys
  import opened Table
  import opened History
  import opened Compaction
  import opened Runs
  import opened Writes

  /** The event a query at revision r shows for a name. */
  function VisibleAt(rows: Rows, name: string, r: nat): Option<Event> {
    var m := LatestAt(rows, name, r);
    if m == 0 || rows[m].deleted then None else Some(Scan(m, rows[m]))
  }

  /** The newest row the table has of a name at r is the newest of the history, if kept. */
  lemma LatestInTable(w: World, name: string, r: nat)
    requires Inv(w) && !IsFill(name)
    ensures var m := LatestAt(w.hist, name, r);
            var t := LatestAt(w.db.rows, name, r);
            if m != 0 && Kept(w.hist, w.Compacted(), m)
            then t == m && w.db.rows[m] == Stored(w.hist[m], w.Compacted())
            else t == 0
  {
    var h, c, rows := w.hist, w.Compacted(), w.db.rows;
    var m, t := LatestAt(h, name, r), LatestAt(rows, name, r);
    if t != 0 {
      assert Kept(h, c, t);
      assert t <= m;
    }
  }

  lemma GapsAreInvisible(w: World, name: string, r: nat)
    requires Inv(w) && IsFill(name)
    ensures VisibleAt(w.db.rows, name, r) == VisibleAt(w.hist, name, r) == None
  {
    CompactKeyIsNotFill();
    var m, t := LatestAt(w.hist, name, r), LatestAt(w.db.rows, name, r);
    assert m == 0;
    assert t != 0 ==> !Kept(w.hist, w.Compacted(), t);
  }

  /** At any revision, compacted or not, the table shows the true version of a name if that
    version is still kept, and shows nothing otherwise. */
  lemma VisibleExactly(w: World, name: string, r: nat)
    requires Inv(w)
    ensures var truth := VisibleAt(w.hist, name, r);
            VisibleAt(w.db.rows, name, r)
              == if truth.Some? && Kept(w.hist, w.Compacted(), truth.value.kv.modRevision) then truth else None
  {
    if IsFill(name) {
      GapsAreInvisible(w, name, r);
    } else {
      LatestInTable(w, name, r);
      var m := LatestAt(w.hist, name, r);
      if m != 0 && Kept(w.hist, w.Compacted(), m) {
        assert Scan(m, Stored(w.hist[m], w.Compacted())) == Scan(m, w.hist[m]) by { KeptCompactKeyIsCreate(w, m); }
      }
    }
  }

  /** The bookkeeping row shows the same event whatever compact revision it carries. */
  lemma KeptCompactKeyIsCreate(w: World, m: nat)
    requires Inv(w) && m in w.hist
    ensures Scan(m, Stored(w.hist[m], w.Compacted())) == Scan(m, w.hist[m])
  {
    assert ChainOk(w.hist, m);
  }

  /** At or above the compact revision the table shows exactly the history. */
  lemma VisibleFromCompacted(w: World, name: string, r: nat)
    requires Inv(w) && r >= w.Compacted()
    ensures VisibleAt(w.db.rows, name, r) == VisibleAt(w.hist, name, r)
  {
    VisibleExactly(w, name, r);
    var m := LatestAt(w.hist, name, r);
    if m != 0 && !w.hist[m].deleted {
      assert m <= w.Compacted() ==> LatestAt(w.hist, name, w.Compacted()) == m;
    }
  }

  lemma VisibleIsStable(w: World, w': World, name: string, r: nat)
    requires Inv(w) && Inv(w') && Later(w, w') && r <= w.db.lastId
    ensures VisibleAt(w'.hist, name, r) == VisibleAt(w.hist, name, r)
  {
    var a, b := LatestAt(w.hist, name, r), LatestAt(w'.hist, name, r);
    assert b != 0 ==> b in w.hist;
    assert a != 0 ==> a in w'.hist;
  }

  /** Reading rows first and the compact revision second is sound: if the revision asked for is
    not below the compact revision seen afterwards, the rows were the truth at that revision. */
  lemma CheckAfterRead(w: World, w': World, name: string, r: nat)
    requires Inv(w) && Inv(w') && Later(w, w')
    requires w'.Compacted() <= r <= w.db.lastId
    ensures VisibleAt(w.db.rows, name, r) == VisibleAt(w'.hist, name, r)
  {
    VisibleFromCompacted(w, name, r);
    VisibleIsStable(w, w', name, r);
  }

  /** tryCompact, from any stale start, leaves every snapshot from max(compact revision, end) on
    as it was, for every name. */
  lemma CompactKeepsSnapshots(w: World, start: nat, end: nat, name: string, r: nat)
    requires Inv(w) && Enabled(w, Compact(start, end))
    requires r >= Max(w.Compacted(), end)
    ensures VisibleAt(TryCompact(w.db, start, end).rows, name, r) == VisibleAt(w.db.rows, name, r)
  {
    hide TryCompact, Inv, VisibleAt;
    CompactKeepsInv(w, start, end);
    VisibleFromCompacted(w, name, r);
    VisibleFromCompacted(World(TryCompact(w.db, start, end), w.hist), name, r);
  }

  /** Filling a gap changes no snapshot. */
  lemma FillKeepsSnapshots(w: World, id: nat, name: string, r: nat)
    requires Inv(w) && 1 <= id <= w.db.lastId
    ensures VisibleAt(FillSql(w.db, id).0.rows, name, r) == VisibleAt(w.db.rows, name, r)
    ensures forall i :: i in w.db.rows ==> i in FillSql(w.db, id).0.rows && FillSql(w.db, id).0.rows[i] == w.db.rows[i]
    ensures MaxId(FillSql(w.db, id).0) == MaxId(w.db)
  {
    hide TableOk, HistoryOk, VisibleAt, Kept;
    var w' := Apply(w, Fill(id));
    FillKeepsInv(w, id);
    VisibleExactly(w, name, r);
    VisibleExactly(w', name, r);
    MaxIdIsNewest(w);
    MaxIdIsNewest(w');
  }

  /** An After query from a revision that is not compacted returns every row written since. */
  lemma AfterIsComplete(w: World, w': World, r: nat, i: nat)
    requires Inv(w) && Inv(w') && Later(w, w')
    requires w'.Compacted() <= r < i
    ensures i in w.db.rows <==> i in w.hist
    ensures i in w.db.rows ==> i in w'.hist && Scan(i, w.db.rows[i]) == Scan(i, w'.hist[i])
  {
    NoHoleAboveCompacted(w, i);
    if i in w.hist { KeptCompactKeyIsCreate(w, i); }
  }

  /** What a surviving row tells is true even after the past it tells about is deleted: its own key, value and
    lease, whether it created or deleted the key, its create revision, and the key, revisions and value of the
    version it replaced. */
  lemma MetadataSurvives(w: World, i: nat)
    requires Inv(w) && i in w.db.rows && Kept(w.hist, w.Compacted(), i)
    ensures var e, row := Scan(i, w.db.rows[i]), w.hist[i];
            var p := LatestAt(w.hist, row.name, i - 1);
            && e.kv == KeyValue(row.name, Birth(w.hist, i), i, row.value, row.lease)
            && e.create == row.created && e.delete == row.deleted
            && (e.prevKv.None? <==> p == 0 || w.hist[p].deleted)
            && (e.prevKv.Some? ==>
                  e.prevKv.value == KeyValue(row.name, Birth(w.hist, p), p, w.hist[p].value, row.lease))
  {
    KeptCompactKeyIsCreate(w, i);
    BirthIsStored(w.hist, w.db.lastId, i);
    assert ChainOk(w.hist, i);
  }
}
