/** Runs: any interleaving of writes, compactions and fills. */
module Runs {
  import opened Keys
  import opened Table
  import opened History
  import opened Writes
  import opened Compaction

  /** What one step can do: append one row, or change the table only; compaction alone moves
    the compact revision; only a fill can collide. */
  lemma StepOutcome(w: World, s: Step)
    requires Inv(w) && Enabled(w, s)
    ensures var w', n := Apply(w, s), w.db.lastId + 1;
            && Inv(w')
            && w'.Compacted() == (if s.Compact? then Max(w.Compacted(), s.end) else w.Compacted())
            && ((w'.hist == w.hist && w'.db.lastId == w.db.lastId)
                || (Exec(w.db, s).1 == Inserted(n) && n in w'.db.rows && w'.db.lastId == n
                    && w'.hist == w.hist[n := w'.db.rows[n]]))
            && (Exec(w.db, s).1 == Violation <==> s.Fill? && s.id in w.db.rows)
  {
    hide Inv;
    match s
    case Create(key, value, lease) => CreateKeepsInv(w, key, value, lease);
    case CompactStart => CreateKeepsInv(w, COMPACT_KEY, Some(""), 0);
    case Update(key, value, rev, lease) => UpdateKeepsInv(w, key, value, rev, lease);
    case Delete(key, rev) => DeleteKeepsInv(w, key, rev);
    case Fill(id) => FillKeepsInv(w, id);
    case Compact(start, end) => CompactKeepsInv(w, start, end);
  }

  // ---------------------------------------------------------------- what every run keeps

  /** w' is a later moment of the same database: history only grows, and neither the newest
    id nor the compact revision goes back. */
  ghost predicate Later(w: World, w': World) {
    && w.db.lastId <= w'.db.lastId
    && w.Compacted() <= w'.Compacted()
    && (forall i :: i in w.hist ==> i in w'.hist && w'.hist[i] == w.hist[i])
  }

  lemma ApplyIsLater(w: World, s: Step)
    requires Inv(w) && Enabled(w, s)
    ensures Inv(Apply(w, s)) && Later(w, Apply(w, s))
  {
    hide Inv, Apply;
    WrittenIds(w, w.db.lastId + 1);
    StepOutcome(w, s);
  }

  lemma {:induction false} RunIsLater(w: World, steps: seq<Step>)
    requires Inv(w) && ValidRun(w, steps)
    ensures Inv(Run(w, steps)) && Later(w, Run(w, steps))
    decreases |steps|
  {
    hide Inv;
    if steps != [] {
      ApplyIsLater(w, steps[0]);
      RunIsLater(Apply(w, steps[0]), steps[1..]);
    }
  }

  lemma NothingRun(w: World)
    ensures Run(w, []) == w
  {
  }

  lemma RunFirst(w: World, s: Step, rest: seq<Step>)
    ensures Run(w, [s] + rest) == Run(Apply(w, s), rest)
    ensures ValidRun(w, [s] + rest) <==> Enabled(w, s) && ValidRun(Apply(w, s), rest)
  {
    assert ([s] + rest)[1..] == rest;
  }

  lemma {:induction false} RunAppend(w: World, a: seq<Step>, b: seq<Step>)
    ensures Run(w, a + b) == Run(Run(w, a), b)
    ensures ValidRun(w, a + b) <==> ValidRun(w, a) && ValidRun(Run(w, a), b)
    decreases |a|
  {
    hide Apply, Enabled;
    if a == [] {
      assert a + b == b;
    } else {
      RunAppend(Apply(w, a[0]), a[1..], b);
      assert (a + b)[1..] == a[1..] + b;
    }
  }

  /** Those steps of a schedule that can be taken when their turn comes. */
  function Feasible(db: Db, steps: seq<Step>): seq<Step>
    decreases |steps|
  {
    if steps == [] then []
    else if Possible(db, steps[0]) then [steps[0]] + Feasible(Exec(db, steps[0]).0, steps[1..])
    else Feasible(db, steps[1..])
  }

  /** They are a valid run, and a valid run is all feasible. */
  lemma {:induction false} FeasibleIsValid(w: World, steps: seq<Step>)
    ensures ValidRun(w, Feasible(w.db, steps))
    ensures ValidRun(w, steps) ==> Feasible(w.db, steps) == steps
    decreases |steps|
  {
    hide Exec, Possible;
    if steps != [] {
      if Possible(w.db, steps[0]) {
        FeasibleIsValid(Apply(w, steps[0]), steps[1..]);
        RunFirst(w, steps[0], Feasible(Exec(w.db, steps[0]).0, steps[1..]));
      } else {
        FeasibleIsValid(w, steps[1..]);
      }
    }
  }

  /** The world after the feasible steps of a schedule. */
  function Meanwhile(w: World, steps: seq<Step>): World {
    Run(w, Feasible(w.db, steps))
  }

  lemma MeanwhileIsLater(w: World, steps: seq<Step>)
    requires Inv(w)
    ensures Inv(Meanwhile(w, steps)) && Later(w, Meanwhile(w, steps))
    ensures steps == [] ==> Meanwhile(w, steps) == w
  {
    hide Inv, Later;
    FeasibleIsValid(w, steps);
    RunIsLater(w, Feasible(w.db, steps));
  }

  // ---------------------------------------------------------------- between the statements of a caller

  /** The world after the first k of a sequence of runs by others. */
  function WorldAt(w: World, others: seq<seq<Step>>, k: nat): World
    requires k <= |others|
  {
    if k == 0 then w else Run(WorldAt(w, others, k - 1), others[k - 1])
  }

  ghost predicate Interleaved(w: World, others: seq<seq<Step>>) {
    forall k :: 0 <= k < |others| ==> ValidRun(WorldAt(w, others, k), others[k])
  }

  lemma {:induction false} WorldsAreLater(w: World, others: seq<seq<Step>>, i: nat, j: nat)
    requires Inv(w) && Interleaved(w, others) && i <= j <= |others|
    ensures Inv(WorldAt(w, others, i)) && Inv(WorldAt(w, others, j))
    ensures Later(WorldAt(w, others, i), WorldAt(w, others, j))
    decreases j
  {
    hide Inv, Run, ValidRun, Later;
    if i == j {
      LaterReflexive(WorldAt(w, others, i));
      if i > 0 {
        WorldsAreLater(w, others, i - 1, i - 1);
        RunIsLater(WorldAt(w, others, i - 1), others[i - 1]);
      }
    } else {
      WorldsAreLater(w, others, i, j - 1);
      RunIsLater(WorldAt(w, others, j - 1), others[j - 1]);
      LaterTransitive(WorldAt(w, others, i), WorldAt(w, others, j - 1), WorldAt(w, others, j));
    }
  }

  lemma {:induction false} WorldAtSlice(w: World, others: seq<seq<Step>>, i: nat, j: nat, k: nat)
    requires i + k <= j <= |others|
    ensures WorldAt(WorldAt(w, others, i), others[i..j], k) == WorldAt(w, others, i + k)
    decreases k
  {
    hide Run;
    if k > 0 {
      WorldAtSlice(w, others, i, j, k - 1);
      assert others[i..j][k - 1] == others[i + k - 1];
    }
  }

  lemma InterleavedSlice(w: World, others: seq<seq<Step>>, i: nat, j: nat)
    requires Interleaved(w, others) && i <= j <= |others|
    ensures Interleaved(WorldAt(w, others, i), others[i..j])
  {
    hide ValidRun, WorldAt;
    forall k | 0 <= k < j - i
      ensures ValidRun(WorldAt(WorldAt(w, others, i), others[i..j], k), others[i..j][k])
    {
      WorldAtSlice(w, others, i, j, k);
      assert others[i..j][k] == others[i + k];
    }
  }

  lemma LaterReflexive(w: World)
    ensures Later(w, w)
  {
  }

  lemma LaterTransitive(a: World, b: World, c: World)
    requires Later(a, b) && Later(b, c)
    ensures Later(a, c)
  {
  }

  lemma InitInv()
    ensures Inv(INIT)
  {
    CompactRevisionIs(INIT.db.rows, 0);
  }

  /** In every run from an empty database, by any number of clients, pollers and compactors,
    the table is what the history keeps at the compact revision. */
  lemma ReachableInv(steps: seq<Step>)
    requires ValidRun(INIT, steps)
    ensures Inv(Run(INIT, steps))
  {
    InitInv();
    RunIsLater(INIT, steps);
  }

  /** Nothing above the compact revision is ever missing, and nothing there is a gap row. */
  lemma NoHoleAboveCompacted(w: World, i: nat)
    requires Inv(w) && i > w.Compacted()
    ensures i in w.hist <==> i in w.db.rows
    ensures i in w.db.rows ==> w.db.rows[i] == Stored(w.hist[i], w.Compacted())
  {
    if i in w.hist { assert Kept(w.hist, w.Compacted(), i); }
  }

  /** MAX(id) is the newest id ever written, and the compact revision stays below it. */
  lemma MaxIdIsNewest(w: World)
    requires Inv(w)
    ensures MaxId(w.db) == w.db.lastId
    ensures w.Compacted() == 0 || w.Compacted() < MaxId(w.db)
  {
    if w.db.lastId > 0 { NoHoleAboveCompacted(w, w.db.lastId); }
  }

  /** compactStart never meets the duplicate bookkeeping rows its repair branch is for. */
  lemma OneCompactKey(w: World, i: nat, j: nat)
    requires Inv(w) && i in w.db.rows && j in w.db.rows
    requires w.db.rows[i].name == w.db.rows[j].name == COMPACT_KEY
    ensures i == j
  {
    CompactKeyStored(w, i);
    CompactKeyStored(w, j);
    CompactKeyUnique(w.hist, w.db.lastId, i, j);
  }

  lemma CompactKeyStays(w: World, w': World)
    requires Inv(w) && Inv(w') && Later(w, w') && HasCompactKey(w.db.rows)
    ensures HasCompactKey(w'.db.rows)
  {
    var k :| k in w.db.rows && w.db.rows[k].name == COMPACT_KEY;
    CompactKeyStored(w, k);
    var c := w'.Compacted();
    var l := LatestAt(w'.hist, COMPACT_KEY, c);
    assert ChainOk(w'.hist, k);
    if l != 0 { CompactKeyUnique(w'.hist, w'.db.lastId, k, l); }
    assert Kept(w'.hist, c, k);
    assert w'.db.rows[k].name == COMPACT_KEY;
  }

  /** The unique index of the schema: no two rows share name and prev_revision. */
  predicate IndexHolds(rows: Rows) {
    forall i, j :: i in rows && j in rows && i != j ==>
      !(rows[i].name == rows[j].name && rows[i].prevRevision == rows[j].prevRevision)
  }

  lemma InsertKeepsIndex(db: Db, id: nat, row: Row)
    requires IndexHolds(db.rows)
    ensures IndexHolds(InsertAt(db, id, row).0.rows)
  {
  }

  /** Compaction changes prev_revision of the bookkeeping row only, and there is only one. */
  lemma CompactKeepsIndex(w: World, start: nat, end: nat)
    requires Inv(w) && IndexHolds(w.db.rows)
    ensures IndexHolds(TryCompact(w.db, start, end).rows)
  {
    hide TryCompact, Inv;
    var rows, rows' := w.db.rows, TryCompact(w.db, start, end).rows;
    forall i, j | i in rows' && j in rows' && i != j
      ensures !(rows'[i].name == rows'[j].name && rows'[i].prevRevision == rows'[j].prevRevision)
    {
      TryCompactKeys(w.db, start, end, i);
      TryCompactKeys(w.db, start, end, j);
      if rows[i].name == rows[j].name == COMPACT_KEY { OneCompactKey(w, i, j); }
    }
  }

  lemma StepKeepsIndex(w: World, s: Step)
    requires Inv(w) && Enabled(w, s) && IndexHolds(w.db.rows)
    ensures IndexHolds(Apply(w, s).db.rows)
  {
    hide Inv, IndexHolds, InsertAt, TryCompact;
    var n := w.db.lastId + 1;
    match s {
      case Create(key, value, lease) =>
        InsertKeepsIndex(w.db, n, Row(key, true, false, 0, Latest(w.db.rows, key), lease, value, None));
      case CompactStart =>
        InsertKeepsIndex(w.db, n, Row(COMPACT_KEY, true, false, 0, Latest(w.db.rows, COMPACT_KEY), 0, Some(""), None));
      case Update(key, value, rev, lease) =>
        if CurrentIs(w.db.rows, key, rev) {
          var cur := w.db.rows[rev];
          InsertKeepsIndex(w.db, n, Row(key, false, false, BirthColumn(rev, cur), rev, lease, value, cur.value));
        }
      case Delete(key, rev) =>
        if CurrentIs(w.db.rows, key, rev) {
          var cur := w.db.rows[rev];
          InsertKeepsIndex(w.db, n, Row(cur.name, false, true, BirthColumn(rev, cur), rev, cur.lease, None, cur.value));
        }
      case Fill(id) => InsertKeepsIndex(w.db, id, FillRow(id));
      case Compact(start, end) => CompactKeepsIndex(w, start, end);
    }
  }

  /** In every run the index holds of the table after every step, beside never being in the way of one. */
  lemma {:induction false} RunKeepsIndex(w: World, steps: seq<Step>)
    requires Inv(w) && ValidRun(w, steps) && IndexHolds(w.db.rows)
    ensures IndexHolds(Run(w, steps).db.rows)
    decreases |steps|
  {
    hide Inv, IndexHolds, Apply, Enabled;
    if steps != [] {
      ApplyIsLater(w, steps[0]);
      StepKeepsIndex(w, steps[0]);
      RunKeepsIndex(Apply(w, steps[0]), steps[1..]);
    }
  }

  /** A compactor may act on an interval it read long ago: whatever others did since, its
    transaction is still one the invariant survives. */
  lemma StaleCompactorIsEnabled(w: World, w': World, end: nat)
    requires Inv(w) && Inv(w') && Later(w, w') && HasCompactKey(w.db.rows)
    requires end + SUPERSEDED_COUNT <= MaxId(w.db)
    ensures Enabled(w', Compact(w.Compacted(), end))
  {
    MaxIdIsNewest(w);
    CompactKeyStays(w, w');
  }
}
