/** How many rows a compacted table holds. */
module Space {
  import opened Keys
  import opened Table
  import opened History
  import opened Snapshots
  import opened Listing
  import opened Compactor

  function RealIds(rows: Rows): set<nat> {
    set i | i in rows && !IsFill(rows[i].name)
  }

  /** The keys (the bookkeeping key included) that have a live version at r. */
  function LiveKeys(h: Rows, r: nat): set<string> {
    set i | i in h && VisibleAt(h, h[i].name, r).Some? :: h[i].name
  }

  /** The newest live version of each of them. */
  function LiveIds(h: Rows, r: nat): set<nat> {
    set i | i in h && i <= r && !h[i].deleted && LatestAt(h, h[i].name, r) == i
  }

  function Interval(a: nat, b: nat): (s: set<nat>)
    ensures forall i :: i in s <==> a < i <= b
    decreases b
  {
    if b <= a then {} else Interval(a, b - 1) + {b}
  }

  lemma IntervalSnoc(a: nat, b: nat)
    requires a < b
    ensures Interval(a, b) == Interval(a, b - 1) + {b} && b !in Interval(a, b - 1)
  {
  }

  lemma IntervalEmpty(a: nat)
    ensures Interval(a, a) == {}
  {
  }

  lemma {:induction false} IntervalSize(a: nat, b: nat)
    requires a <= b
    ensures |Interval(a, b)| == b - a
    decreases b - a
  {
    hide Interval;
    if a < b {
      IntervalSize(a, b - 1);
      IntervalSnoc(a, b);
    } else {
      IntervalEmpty(a);
    }
  }

  lemma LiveCount(w: World, r: nat)
    requires Inv(w)
    ensures |LiveIds(w.hist, r)| == |LiveKeys(w.hist, r)|
  {
    var h := w.hist;
    forall n | n in LiveKeys(h, r)
      ensures exists i :: i in LiveIds(h, r) && h[i].name == n
    {
      assert LatestAt(h, n, r) in LiveIds(h, r);
    }
    forall i | i in LiveIds(h, r)
      ensures h[i].name in LiveKeys(h, r)
    {
      assert VisibleAt(h, h[i].name, r).Some?;
    }
    NamesCount(h, LiveIds(h, r), LiveKeys(h, r));
  }

  lemma RealIdsAre(w: World)
    requires Inv(w)
    ensures RealIds(w.db.rows) == LiveIds(w.hist, w.Compacted()) + Interval(w.Compacted(), w.db.lastId)
    ensures LiveIds(w.hist, w.Compacted()) !! Interval(w.Compacted(), w.db.lastId)
  {
    CompactKeyIsNotFill();
    forall i
      ensures i in RealIds(w.db.rows) <==> Kept(w.hist, w.Compacted(), i)
    {
    }
    assert forall i :: Kept(w.hist, w.Compacted(), i)
                   <==> i in LiveIds(w.hist, w.Compacted()) || i in Interval(w.Compacted(), w.db.lastId);
  }

  /** The table is as small as it can be: one row per live key, plus the rows above the compact
    revision; gap rows aside. */
  lemma SpaceIsExact(w: World)
    requires Inv(w)
    ensures |RealIds(w.db.rows)| == |LiveKeys(w.hist, w.Compacted())| + (w.db.lastId - w.Compacted())
  {
    RealIdsAre(w);
    LiveCount(w, w.Compacted());
    hide Inv;
    if w.db.lastId >= w.Compacted() { IntervalSize(w.Compacted(), w.db.lastId); }
  }

  /** An uninterrupted compaction run leaves at most a hundred rows beyond the live keys. */
  lemma SpaceAfterCompaction(w: World)
    requires Inv(w)
    ensures var w' := Compactly(w);
            && Inv(w')
            && w'.db.lastId - w'.Compacted() <= 100
            && (w'.Compacted() > w.Compacted() ==> w'.db.lastId - w'.Compacted() == 100)
            && |RealIds(w'.db.rows)| <= |LiveKeys(w'.hist, w'.Compacted())| + 100
  {
    CompactlyOutcome(w);
    SpaceIsExact(Compactly(w));
  }
}
