/** The compactor: batched runs over the driver, and the space they leave behind. */
module Compactor {
  import opened Keys
  import opened Table
  import opened History
  import opened Compaction
  import opened Runs
  import opened Driver
  import opened Queries
  import opened Writes

  const BATCH_SIZE: nat := 1000

  function CeilDiv(a: nat, b: nat): nat
    requires b > 0
  {
    (a + b - 1) / b
  }

  lemma LastBatch(from: nat, batches: nat, start: nat, target: nat)
    requires start == from + BATCH_SIZE * batches && start < target <= start + BATCH_SIZE
    ensures CeilDiv(target - from, BATCH_SIZE) == batches + 1
  {
  }

  /** Where one uninterrupted compaction run leaves a world. */
  function Compactly(w: World): World {
    var w := Apply(w, CompactStart);
    var target := MaxId(w.db) - SUPERSEDED_COUNT;
    if w.Compacted() < target then Apply(w, Compact(w.Compacted(), target)) else w
  }

  /** compactStart leaves a bookkeeping row, and changes nothing when one is there. */
  lemma CompactStartOutcome(w: World)
    requires Inv(w)
    ensures var w' := Apply(w, CompactStart);
            && Inv(w') && HasCompactKey(w'.db.rows) && w'.Compacted() == w.Compacted()
            && (HasCompactKey(w.db.rows) ==> w' == w)
            && (!HasCompactKey(w.db.rows) ==>
                  var n := w.db.lastId + 1;
                  && w'.db.lastId == n && w'.hist.Keys == w.hist.Keys + {n}
                  && w'.hist[n] == Row("compact_rev_key", true, false, 0, 0, 0, Some(""), None))
  {
    hide Inv, Live;
    CreateKeepsInv(w, COMPACT_KEY, Some(""), 0);
    CompactKeyIsLive(w);
    var w' := Apply(w, CompactStart);
    if !Live(w, COMPACT_KEY) {
      assert w'.db.rows[w.db.lastId + 1].name == COMPACT_KEY;
    }
  }

  lemma ApplyCompact(w: World, start: nat, end: nat)
    ensures Apply(w, Compact(start, end)) == World(TryCompact(w.db, start, end), w.hist)
    ensures TryCompact(w.db, start, end).lastId == w.db.lastId
  {
  }

  /** A run that has reached `done`, as one compaction. */
  function Reached(w: World, done: nat): World {
    if done <= w.Compacted() then w else Apply(w, Compact(w.Compacted(), done))
  }

  lemma NothingReached(w: World)
    ensures Reached(w, w.Compacted()) == w
  {
  }

  /** One more batch on top of the batches done so far. */
  lemma BatchStep(w: World, done: nat, next: nat)
    requires Inv(w) && HasCompactKey(w.db.rows)
    requires w.Compacted() <= done <= next && next + SUPERSEDED_COUNT <= w.db.lastId
    ensures var now := Reached(w, done);
            && Inv(now) && now.Compacted() == done && MaxId(now.db) == w.db.lastId
            && (done < next ==> Apply(now, Compact(done, next)) == Reached(w, next))
  {
    hide Inv, TryCompact, Apply, CompactRevision, MaxId, HasCompactKey;
    var now := Reached(w, done);
    InvNamesEarlier(w);
    if done != w.Compacted() {
      CompactKeepsInv(w, w.Compacted(), done);
      BatchesCompose(w.db, w.Compacted(), done, next);
      ApplyCompact(w, w.Compacted(), done);
    }
    ApplyCompact(now, done, next);
    ApplyCompact(w, w.Compacted(), next);
    MaxIdIsNewest(now);
  }

  lemma CompactlyIsReached(w: World, done: nat)
    requires var w := Apply(w, CompactStart);
             var target := MaxId(w.db) - SUPERSEDED_COUNT;
             done == if w.Compacted() < target then target else w.Compacted()
    ensures Compactly(w) == Reached(Apply(w, CompactStart), done)
  {
  }

  lemma CompactlyOutcome(w: World)
    requires Inv(w)
    ensures var w' := Compactly(w);
            && Inv(w') && HasCompactKey(w'.db.rows)
            && w'.db.lastId - w'.Compacted() <= SUPERSEDED_COUNT
  {
    hide Inv, CompactRevision, MaxId, TryCompact, Apply, HasCompactKey;
    var w1 := Apply(w, CompactStart);
    CompactStartOutcome(w);
    MaxIdIsNewest(w1);
    if w1.Compacted() < MaxId(w1.db) - SUPERSEDED_COUNT {
      var target := MaxId(w1.db) - SUPERSEDED_COUNT;
      CompactKeepsInv(w1, w1.Compacted(), target);
      ApplyCompact(w1, w1.Compacted(), target);
    }
  }

  /** One batch beside others: it is done afterwards, by us or by somebody else. */
  lemma CompactAmong(w: World, others: seq<Step>, revision: nat)
    requires Inv(w) && HasCompactKey(w.db.rows) && revision + SUPERSEDED_COUNT <= w.db.lastId
    ensures var w' := if w.Compacted() >= revision then w
                      else Apply(Meanwhile(w, others), Compact(w.Compacted(), revision));
            Inv(w') && Later(w, w') && HasCompactKey(w'.db.rows) && w'.Compacted() >= revision
  {
    hide Inv, Later, TryCompact, Apply, CompactRevision, HasCompactKey, Meanwhile;
    if w.Compacted() >= revision {
      LaterReflexive(w);
    } else {
      var v := Meanwhile(w, others);
      MeanwhileIsLater(w, others);
      MaxIdIsNewest(w);
      StaleCompactorIsEnabled(w, v, revision);
      ApplyIsLater(v, Compact(w.Compacted(), revision));
      StepOutcome(v, Compact(w.Compacted(), revision));
      LaterTransitive(w, v, Apply(v, Compact(w.Compacted(), revision)));
      CompactKeyStays(w, Apply(v, Compact(w.Compacted(), revision)));
    }
  }

  lemma KeyStaysMeanwhile(w: World, others: seq<Step>)
    requires Inv(w) && HasCompactKey(w.db.rows)
    ensures HasCompactKey(Meanwhile(w, others).db.rows)
  {
    hide Inv, Later, Meanwhile;
    MeanwhileIsLater(w, others);
    CompactKeyStays(w, Meanwhile(w, others));
  }

  lemma LaterGrows(w: World, w': World)
    requires Later(w, w')
    ensures w.db.lastId <= w'.db.lastId && w.Compacted() <= w'.Compacted()
  {
  }

  /** One more batch with nobody else acting. */
  lemma QuietBatch(w: World, v: World, start: nat, next: nat)
    requires Inv(w) && HasCompactKey(w.db.rows) && v == Reached(w, start)
    requires w.Compacted() <= start < next && next + SUPERSEDED_COUNT <= w.db.lastId
    ensures v.Compacted() == start && Apply(v, Compact(v.Compacted(), next)) == Reached(w, next)
  {
    hide Inv, Apply, Reached, MaxId, CompactRevision, HasCompactKey;
    BatchStep(w, start, next);
  }

  /** One turn of the batch loop, others acting within it and after it. */
  lemma BatchAmong(w: World, v: World, mine: seq<Step>, theirs: seq<Step>, start: nat, next: nat, quiet: bool)
    requires Inv(w) && Inv(v) && Later(w, v) && HasCompactKey(w.db.rows) && HasCompactKey(v.db.rows)
    requires w.Compacted() <= start < next && next + SUPERSEDED_COUNT <= w.db.lastId
    requires quiet ==> mine == theirs == [] && v == Reached(w, start)
    ensures next <= MaxId(v.db)
    ensures var v' := if v.Compacted() >= next then v else Apply(Meanwhile(v, mine), Compact(v.Compacted(), next));
            var after := Meanwhile(v', theirs);
            && Inv(v') && Inv(after) && Later(w, after) && HasCompactKey(after.db.rows) && after.Compacted() >= next
            && (quiet ==> after == Reached(w, next))
  {
    hide Inv, Apply, Reached, MaxId, CompactRevision, HasCompactKey, Meanwhile, Later, TryCompact;
    LaterGrows(w, v);
    MaxIdIsNewest(v);
    CompactAmong(v, mine, next);
    MeanwhileIsLater(v, mine);
    if quiet { QuietBatch(w, v, start, next); }
    var v' := if v.Compacted() >= next then v else Apply(Meanwhile(v, mine), Compact(v.Compacted(), next));
    KeyStaysMeanwhile(v', theirs);
    MeanwhileIsLater(v', theirs);
    LaterTransitive(w, v, v');
    LaterTransitive(w, v', Meanwhile(v', theirs));
    LaterGrows(v', Meanwhile(v', theirs));
  }

  class SqlLog {
    const d: Generic

    constructor (d: Generic)
      ensures this.d == d
    {
      this.d := d;
    }

    /** Makes sure the bookkeeping row exists, whatever others do between looking and writing; the branch for
      duplicates is never taken. */
    method CompactStart(others: seq<Step>)
      requires d.Valid()
      modifies d
      ensures d.World() == Apply(Meanwhile(old(d.World()), others), History.CompactStart)
      ensures d.Valid() && HasCompactKey(d.rows) && Later(old(d.World()), d.World())
    {
      hide Inv, Meanwhile, Later, CompactRevision;
      ghost var w := d.World();
      CompactKeyQuery(w);
      MeanwhileIsLater(w, others);
      ghost var v := Meanwhile(w, others);
      CompactStartOutcome(v);
      ApplyIsLater(v, History.CompactStart);
      LaterTransitive(w, v, Apply(v, History.CompactStart));
      var events := AfterPrefix(d.rows, COMPACT_KEY, 0, 0);
      if |events| == 0 {
        d.Schedule(others);
        var _, _, _ := d.Insert(History.CompactStart);
      } else if |events| > 1 {
        assert false;
      } else {
        KeyStaysMeanwhile(w, others);
        d.Schedule(others);
      }
    }

    /** A whole run, a thousand revisions at a time, beside clients, pollers and other compactors: it ends at or
      above its target, a hundred below the newest revision it read, in the number of batches that the
      distance takes. With nobody else acting it is one compaction to the target. */
    method DoCompact(others: nat -> seq<Step>) returns (ghost batches: nat, ghost from: nat, ghost target: int)
      requires d.Valid()
      modifies d
      ensures d.Valid() && HasCompactKey(d.rows) && Later(old(d.World()), d.World())
      ensures from >= old(d.World()).Compacted() && target >= MaxId(old(d.View())) - 100
      ensures d.World().Compacted() >= target && target + 100 <= MaxId(d.View())
      ensures batches == if from < target then CeilDiv(target - from, 1000) else 0
      ensures (forall k: nat :: others(k) == []) ==> d.World() == Compactly(old(d.World()))
    {
      hide Inv, Apply, Reached, MaxId, CompactRevision, CeilDiv, HasCompactKey, Meanwhile, Later, Compactly;
      ghost var w0 := d.World();
      ghost var quiet := forall k: nat :: others(k) == [];
      MeanwhileIsLater(w0, others(0));
      CompactStart(others(0));
      KeyStaysMeanwhile(d.World(), others(1));
      ghost var w1 := d.World();
      d.Schedule(others(1));
      ghost var w := d.World();
      MeanwhileIsLater(w1, others(1));
      LaterTransitive(w0, w1, w);
      MaxIdIsNewest(w0);
      MaxIdIsNewest(w);
      LaterGrows(w0, w);
      LaterReflexive(w);
      NothingReached(w);
      var start, high := d.GetCompactRevision();
      from, target := start, high - SUPERSEDED_COUNT;
      var goal := high - SUPERSEDED_COUNT;
      var turn := 2;
      batches := 0;
      while start < goal
        invariant from <= start && (start <= goal || start == from)
        invariant d.Valid() && HasCompactKey(d.rows) && Later(w, d.World()) && d.World().Compacted() >= start
        invariant quiet ==> d.World() == Reached(w, start)
        invariant start < goal ==> start == from + BATCH_SIZE * batches
        invariant start >= goal ==> batches == if from < target then CeilDiv(target - from, BATCH_SIZE) else 0
        decreases goal - start
      {
        var batchRevision := start + BATCH_SIZE;
        if batchRevision > goal {
          batchRevision := goal;
        }
        if goal <= start + BATCH_SIZE { LastBatch(from, batches, start, goal); }
        BatchAmong(w, d.World(), others(turn), others(turn + 1), start, batchRevision, quiet);
        d.Compact(batchRevision, others(turn));
        d.Schedule(others(turn + 1));
        start := batchRevision;
        turn := turn + 2;
        batches := batches + 1;
      }
      LaterTransitive(w0, w, d.World());
      LaterGrows(w, d.World());
      MaxIdIsNewest(d.World());
      if quiet { CompactlyIsReached(w0, start); }
    }
  }
}
