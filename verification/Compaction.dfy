/** The compaction transaction keeps the invariant, whatever stale start it works from. */
module Compaction {
  import opened Keys
  import opened Table
  import opened History

  /** A row that a compaction to a larger revision keeps was kept before. */
  lemma KeptMonotone(h: Rows, c: nat, d: nat, i: nat)
    requires c <= d && Kept(h, d, i)
    ensures Kept(h, c, i)
  {
    if i <= c {
      assert LatestAt(h, h[i].name, d) == i;
      assert LatestAt(h, h[i].name, c) <= i;
    }
  }

  /** The next row of a name after i. */
  lemma {:induction false} NextOf(h: Rows, name: string, i: nat, j: nat) returns (x: nat)
    requires i < j && j in h && h[j].name == name
    ensures i < x <= j && x in h && h[x].name == name && LatestAt(h, name, x - 1) <= i
    decreases j
  {
    var p := LatestAt(h, name, j - 1);
    if p <= i {
      x := j;
    } else {
      x := NextOf(h, name, i, p);
    }
  }

  /** A live version that is not its key's last is named by the row that replaced it. */
  lemma ReplacedIsNamed(h: Rows, lastId: nat, i: nat, j: nat) returns (x: nat)
    requires HistoryOk(h, lastId) && i in h && j in h
    requires i < j && h[j].name == h[i].name && !h[i].deleted
    ensures i < x <= j && x in h && h[x].name == h[i].name != COMPACT_KEY
    ensures !h[x].created && h[x].prevRevision == i
  {
    x := NextOf(h, h[i].name, i, j);
    assert ChainOk(h, x);
  }

  /** What the compaction removes: a row that was kept at c but is not kept at end is
    superseded by a row of the window or is a tombstone of it. */
  lemma DroppedIsSelected(w: World, start: nat, end: nat, i: nat)
    requires Inv(w) && start <= w.Compacted()
    requires Kept(w.hist, w.Compacted(), i) && !Kept(w.hist, Max(w.Compacted(), end), i)
    ensures i in Superseded(w.db.rows, start, end)
         || (i in w.db.rows && w.db.rows[i].deleted && start < i <= end)
  {
    var h, c := w.hist, w.Compacted();
    if !h[i].deleted {
      var j := LatestAt(h, h[i].name, end);
      var x := ReplacedIsNamed(h, w.db.lastId, i, j);
      assert Kept(h, c, x);
      assert w.db.rows[x].prevRevision == i;
    } else {
      assert w.db.rows[i] == Stored(h[i], c);
    }
  }

  /** What it does not remove: a row that stays kept is neither. */
  lemma KeptIsSpared(w: World, start: nat, end: nat, i: nat)
    requires Inv(w)
    requires Kept(w.hist, Max(w.Compacted(), end), i)
    ensures i in w.db.rows && w.db.rows[i] == Stored(w.hist[i], w.Compacted())
    ensures i !in Superseded(w.db.rows, start, end)
    ensures !(w.db.rows[i].deleted && start < i <= end)
  {
    var h, c, rows := w.hist, w.Compacted(), w.db.rows;
    KeptMonotone(h, c, Max(c, end), i);
    forall x | x in rows && !rows[x].created && rows[x].prevRevision != 0 && x <= end && rows[x].name != COMPACT_KEY
      ensures rows[x].prevRevision != i
    {
      assert Kept(h, c, x) && ChainOk(h, x);
    }
  }

  /** The rows a transaction leaves in the table. */
  lemma TryCompactKeys(db: Db, start: nat, end: nat, i: nat)
    ensures i in TryCompact(db, start, end).rows <==>
              && i in db.rows && i !in Superseded(db.rows, start, end)
              && !(db.rows[i].deleted && start < i <= end)
    ensures i in TryCompact(db, start, end).rows ==>
              TryCompact(db, start, end).rows[i] == Stored(db.rows[i], Max(db.rows[i].prevRevision, end))
    ensures TryCompact(db, start, end).lastId == db.lastId
  {
  }

  lemma CompactKeepsTable(w: World, start: nat, end: nat)
    requires Inv(w) && start <= w.Compacted()
    ensures TableOk(TryCompact(w.db, start, end).rows, w.hist, Max(w.Compacted(), end))
  {
    hide Kept, Superseded, TryCompact, CompactRevision, HistoryOk;
    var h, c, d := w.hist, w.Compacted(), Max(w.Compacted(), end);
    var rows, rows' := w.db.rows, TryCompact(w.db, start, end).rows;
    forall i {:trigger Kept(h, d, i)} | i in h && Kept(h, d, i)
      ensures i in rows'
    {
      KeptIsSpared(w, start, end, i);
      TryCompactKeys(w.db, start, end, i);
    }
    forall i | i in rows'
      ensures i in h && rows'[i] == if Kept(h, d, i) then Stored(h[i], d) else FillRow(i)
    {
      TryCompactKeys(w.db, start, end, i);
      CompactKeyIsNotFill();
      if Kept(h, d, i) {
        KeptIsSpared(w, start, end, i);
      } else if Kept(h, c, i) {
        DroppedIsSelected(w, start, end, i);
      }
    }
  }

  lemma CompactRecords(w: World, start: nat, end: nat)
    requires Inv(w) && Enabled(w, Compact(start, end))
    requires TableOk(TryCompact(w.db, start, end).rows, w.hist, Max(w.Compacted(), end))
    ensures CompactRevision(TryCompact(w.db, start, end).rows) == Max(w.Compacted(), end)
    ensures HasCompactKey(TryCompact(w.db, start, end).rows)
  {
    hide Kept, TryCompact, CompactRevision, HistoryOk;
    var rows' := TryCompact(w.db, start, end).rows;
    var d := Max(w.Compacted(), end);
    var k :| k in w.db.rows && w.db.rows[k].name == COMPACT_KEY;
    CompactKeyKept(w, k, d);
    assert k in rows' && rows'[k].name == COMPACT_KEY;
    CompactKeyIsNotFill();
    CompactRevisionIs(rows', d);
  }

  /** Compaction, from any start at or below the compact revision, leaves exactly what the
    history keeps at the larger of the two revisions. */
  lemma CompactKeepsInv(w: World, start: nat, end: nat)
    requires Inv(w) && Enabled(w, Compact(start, end))
    ensures var db' := TryCompact(w.db, start, end);
            && Inv(World(db', w.hist))
            && CompactRevision(db'.rows) == Max(w.Compacted(), end)
            && HasCompactKey(db'.rows)
  {
    hide TableOk, HistoryOk, CompactRevision, TryCompact, HasCompactKey;
    CompactKeepsTable(w, start, end);
    CompactRecords(w, start, end);
    TryCompactKeys(w.db, start, end, 0);
  }

  lemma CompactKeyKept(w: World, k: nat, d: nat)
    requires Inv(w) && k in w.db.rows && w.db.rows[k].name == COMPACT_KEY
    ensures Kept(w.hist, d, k) && w.hist[k].name == COMPACT_KEY
  {
    CompactKeyStored(w, k);
    assert ChainOk(w.hist, k);
    var l := LatestAt(w.hist, COMPACT_KEY, d);
    if l in w.hist { CompactKeyUnique(w.hist, w.db.lastId, k, if l != 0 then l else k); }
  }

  /** The bookkeeping row is what makes compaction safe: without it the transaction keeps the
    invariant only when it deletes nothing. */
  lemma CompactNeedsItsKey(w: World, start: nat, end: nat)
    requires Inv(w) && start <= w.Compacted() && end + SUPERSEDED_COUNT <= w.db.lastId
    ensures Inv(World(TryCompact(w.db, start, end), w.hist))
       <==> HasCompactKey(w.db.rows)
            || (Superseded(w.db.rows, start, end) == {} && Tombstones(w.db.rows, start, end) == {})
  {
    if HasCompactKey(w.db.rows) {
      CompactKeepsInv(w, start, end);
    } else {
      CompactRevisionIs(w.db.rows, 0);
      WithoutKeyNothingMayGo(w, start, end);
    }
  }

  lemma NothingSelected(db: Db, start: nat, end: nat)
    requires !HasCompactKey(db.rows)
    requires Superseded(db.rows, start, end) == {} && Tombstones(db.rows, start, end) == {}
    ensures TryCompact(db, start, end) == db
  {
    assert db.rows - {} == db.rows;
  }

  lemma WithoutKeyNothingMayGo(w: World, start: nat, end: nat)
    requires Inv(w) && !HasCompactKey(w.db.rows) && w.Compacted() == 0
    ensures Inv(World(TryCompact(w.db, start, end), w.hist))
       <==> Superseded(w.db.rows, start, end) == {} && Tombstones(w.db.rows, start, end) == {}
  {
    var db' := TryCompact(w.db, start, end);
    if Superseded(w.db.rows, start, end) == {} && Tombstones(w.db.rows, start, end) == {} {
      NothingSelected(w.db, start, end);
    } else {
      CompactRevisionIs(db'.rows, 0);
      var i := SelectedRow(w, start, end);
      assert i !in db'.rows && Kept(w.hist, 0, i);
    }
  }

  lemma SelectedRow(w: World, start: nat, end: nat) returns (i: nat)
    requires Inv(w) && !HasCompactKey(w.db.rows) && w.Compacted() == 0
    requires Superseded(w.db.rows, start, end) != {} || Tombstones(w.db.rows, start, end) != {}
    ensures i in w.hist && i !in TryCompact(w.db, start, end).rows
  {
    var rows := w.db.rows;
    if Superseded(rows, start, end) != {} {
      i :| i in Superseded(rows, start, end);
      var j :| j in rows && !rows[j].created && rows[j].prevRevision == i && start < j <= end;
      assert Kept(w.hist, 0, j) && ChainOk(w.hist, j);
    } else {
      i :| i in Tombstones(rows, start, end);
    }
  }

  // ---------------------------------------------------------------- batches

  /** Rows name smaller ids, as every written row does. */
  ghost predicate NamesEarlier(rows: Rows) {
    forall i :: i in rows && rows[i].name != COMPACT_KEY && !rows[i].created ==>
      rows[i].prevRevision == 0 || rows[i].prevRevision < i
  }

  lemma InvNamesEarlier(w: World)
    requires Inv(w)
    ensures NamesEarlier(w.db.rows)
  {
    forall i | i in w.db.rows && w.db.rows[i].name != COMPACT_KEY && !w.db.rows[i].created
      ensures w.db.rows[i].prevRevision == 0 || w.db.rows[i].prevRevision < i
    {
      if Kept(w.hist, w.Compacted(), i) { assert ChainOk(w.hist, i); }
    }
  }

  lemma WindowsAdd(rows: Rows, s: nat, m: nat, e: nat)
    requires s <= m <= e
    ensures Superseded(rows, s, e) == Superseded(rows, s, m) + Superseded(rows, m, e)
  {
    forall p | p in Superseded(rows, s, e)
      ensures p in Superseded(rows, s, m) + Superseded(rows, m, e)
    {
    }
  }

  /** A first batch leaves the next window's view of what is superseded as it was. */
  lemma LaterWindowUntouched(db: Db, s: nat, m: nat, e: nat)
    requires NamesEarlier(db.rows) && s <= m <= e
    ensures Superseded(TryCompact(db, s, m).rows, m, e) == Superseded(db.rows, m, e)
  {
    hide TryCompact;
    var rows, rows' := db.rows, TryCompact(db, s, m).rows;
    forall i | m < i
      ensures i in rows' <==> i in rows
      ensures i in rows && rows[i].name != COMPACT_KEY ==> rows'[i] == rows[i]
      ensures i in rows ==> rows'[i].name == rows[i].name
    {
      TryCompactKeys(db, s, m, i);
    }
    forall p | p in Superseded(rows, m, e)
      ensures p in Superseded(rows', m, e)
    {
      var i :| i in rows && rows[i].name != COMPACT_KEY && !rows[i].created && rows[i].prevRevision != 0 && m < i <= e
               && rows[i].prevRevision == p;
      assert rows'[i] == rows[i];
    }
  }

  /** Compacting in two adjacent batches gives the table one pass gives. */
  lemma BatchesCompose(db: Db, s: nat, m: nat, e: nat)
    requires NamesEarlier(db.rows) && s <= m <= e
    ensures TryCompact(TryCompact(db, s, m), m, e) == TryCompact(db, s, e)
  {
    hide TryCompact, Superseded;
    var mid, two, one := TryCompact(db, s, m), TryCompact(TryCompact(db, s, m), m, e), TryCompact(db, s, e);
    WindowsAdd(db.rows, s, m, e);
    LaterWindowUntouched(db, s, m, e);
    forall i: nat
      ensures i in two.rows <==> i in one.rows
      ensures i in two.rows ==> two.rows[i] == one.rows[i]
    {
      TryCompactKeys(db, s, m, i);
      TryCompactKeys(mid, m, e, i);
      TryCompactKeys(db, s, e, i);
    }
    assert two.rows == one.rows;
    TryCompactKeys(db, s, m, 0);
    TryCompactKeys(mid, m, e, 0);
    TryCompactKeys(db, s, e, 0);
  }
}
