/** The event stream over all interleavings of the poller with writers, compactors and the
  fills of other nodes: its query, its scan and its fill are separate steps. */
module Stream {
  import opened Keys
  import opened Table
  import opened History
  import opened Runs
  import opened Snapshots
  import opened Queries
  import opened Poller

  datatype Phase =
    | Idle
    | Fetched(events: seq<Event>, at: World)   // rows in hand, and the world they were read in
    | Filling(id: nat)

  /** `log` is everything broadcast so far; `lost` the ids that were no longer (or not any more as
    a real row) in the table when the poller passed them. */
  datatype Sys = Sys(w: World, pollStart: nat, last: nat, skip: nat, phase: Phase, log: seq<Event>, lost: set<nat>)

  datatype SysStep =
    | Db(step: Step)
    | Fetch
    | PassOn(elapsed: bool)
    | FillGap(ok: bool)

  function Start(w: World): Sys {
    Sys(w, w.Compacted(), w.Compacted(), 0, Idle, [], {})
  }

  function Missing(w: World, lo: nat, hi: nat): set<nat> {
    set i | i in w.hist && lo < i <= hi && !Kept(w.hist, w.Compacted(), i)
  }

  predicate CanStep(s: Sys, step: SysStep) {
    match step
    case Db(step) => Enabled(s.w, step)
    case Fetch => s.phase.Idle?
    case PassOn(_) => s.phase.Fetched?
    case FillGap(_) => s.phase.Filling?
  }

  function Next(s: Sys, step: SysStep): Sys
    requires CanStep(s, step)
  {
    match step
    case Db(step) => s.(w := Apply(s.w, step))
    case Fetch => s.(phase := Fetched(After(s.w.db.rows, s.last, POLL_LIMIT), s.w))
    case PassOn(elapsed) =>
      var pass := PassOver(s.phase.events, s.last, s.skip, elapsed);
      s.(last := pass.last, skip := pass.skip, log := s.log + pass.out,
         lost := s.lost + Missing(s.phase.at, s.last, pass.last),
         phase := if pass.fill.Some? then Filling(pass.fill.value) else Idle)
    case FillGap(ok) => s.(w := if ok then Apply(s.w, Fill(s.phase.id)) else s.w, phase := Idle)
  }

  /** The written events above lo and up to hi, without the lost ones, in order. */
  function Written(h: Rows, lo: nat, hi: nat, lost: set<nat>): seq<Event> {
    Scanned(h, OrderedBetween(h.Keys - lost, lo, hi))
  }

  ghost predicate PhaseOk(s: Sys) {
    match s.phase
    case Idle => true
    case Fetched(events, at) =>
      Inv(at) && Later(at, s.w) && s.last <= at.db.lastId && events == After(at.db.rows, s.last, POLL_LIMIT)
    case Filling(id) => 1 <= id <= s.w.db.lastId
  }

  ghost predicate LostOk(s: Sys) {
    forall i :: i in s.lost ==> i in s.w.hist && s.pollStart < i <= s.last && !Kept(s.w.hist, s.w.Compacted(), i)
  }

  ghost predicate SysInv(s: Sys) {
    && Inv(s.w)
    && s.pollStart <= s.last <= s.w.db.lastId
    && s.log == Written(s.w.hist, s.pollStart, s.last, s.lost)
    && LostOk(s)
    && PhaseOk(s)
  }

  // ---------------------------------------------------------------- what one pass publishes

  function KeptIds(w: World): (s: set<nat>)
    ensures s <= w.hist.Keys
  {
    set i | i in w.hist && Kept(w.hist, w.Compacted(), i)
  }

  lemma RowIsRealOrGap(w: World, i: nat)
    requires Inv(w)
    ensures i in KeptIds(w) <==> i in w.db.rows && !IsFill(w.db.rows[i].name)
    ensures i in KeptIds(w) ==> Scan(i, w.db.rows[i]) == Scan(i, w.hist[i])
  {
    CompactKeyIsNotFill();
    if i in KeptIds(w) { KeptCompactKeyIsCreate(w, i); }
  }

  /** The real events among the table's rows are the kept part of the history. */
  lemma {:induction false} RealBetween(w: World, lo: nat, hi: nat)
    requires Inv(w)
    ensures Real(Scanned(w.db.rows, OrderedBetween(w.db.rows.Keys, lo, hi)))
         == Scanned(w.hist, OrderedBetween(KeptIds(w), lo, hi))
    decreases hi
  {
    hide Inv, KeptIds, Scanned, Real;
    if lo < hi {
      RealBetween(w, lo, hi - 1);
      RowIsRealOrGap(w, hi);
      var all, some := OrderedBetween(w.db.rows.Keys, lo, hi - 1), OrderedBetween(KeptIds(w), lo, hi - 1);
      if hi in w.db.rows {
        ScannedSnoc(w.db.rows, all, hi);
        RealSnoc(Scanned(w.db.rows, all), Scan(hi, w.db.rows[hi]));
      }
      if hi in KeptIds(w) { ScannedSnoc(w.hist, some, hi); }
    } else {
      assert Real([]) == [] by { RealEmpty(); }
    }
  }

  lemma RealEmpty()
    ensures Real([]) == []
  {
  }

  lemma RealSnoc(events: seq<Event>, e: Event)
    ensures Real(events + [e]) == if IsFill(e.kv.key) then Real(events) else Real(events) + [e]
  {
    assert (events + [e])[..|events|] == events;
  }

  /** The first k rows of an After query are the table's rows up to the k-th id. */
  lemma AfterTakes(rows: Rows, last: nat, limit: nat, k: nat)
    requires k <= |After(rows, last, limit)|
    ensures var events := After(rows, last, limit);
            var rev := LastOf(events, k, last);
            && last <= rev
            && (rev == last || rev <= MaxOf(rows.Keys))
            && (k < |events| ==> rev < MaxOf(rows.Keys))
            && events[..k] == Scanned(rows, OrderedBetween(rows.Keys, last, rev))
  {
    hide OrderedBetween;
    var all := OrderedBetween(rows.Keys, last, MaxOf(rows.Keys));
    var ids := Limit(all, limit);
    if k > 0 {
      OrderedPrefix(rows.Keys, last, MaxOf(rows.Keys), k);
      assert ids[..k] == all[..k];
      assert ids[k - 1] in all;
    } else {
      OrderedNothing(rows.Keys, last);
    }
    if k < |ids| { assert ids[k] in all; }
  }

  lemma OrderedNothing(s: set<nat>, lo: nat)
    ensures OrderedBetween(s, lo, lo) == []
  {
  }

  /** One pass publishes exactly the kept history between where it started and where it stopped. */
  lemma PassPublishes(w: World, last: nat, skip: nat, elapsed: bool)
    requires Inv(w) && last <= w.db.lastId
    ensures var pass := PassOver(After(w.db.rows, last, POLL_LIMIT), last, skip, elapsed);
            && last <= pass.last <= w.db.lastId
            && pass.out == Scanned(w.hist, OrderedBetween(KeptIds(w), last, pass.last))
            && (pass.fill.Some? ==> 1 <= pass.fill.value <= w.db.lastId)
  {
    hide Inv, KeptIds, Real, Passed, After, Scanned, OrderedBetween, LastOf;
    var events := After(w.db.rows, last, POLL_LIMIT);
    var k := Passed(events, last, skip, elapsed);
    AfterTakes(w.db.rows, last, POLL_LIMIT, k);
    RealBetween(w, last, LastOf(events, k, last));
    MaxIdIsNewest(w);
  }

  // ---------------------------------------------------------------- the invariant over steps

  /** A row that is gone stays gone. */
  lemma NotKeptStays(w: World, w': World, i: nat)
    requires Inv(w) && Inv(w') && Later(w, w')
    requires i in w.hist && !Kept(w.hist, w.Compacted(), i)
    ensures !Kept(w'.hist, w'.Compacted(), i)
  {
    var l := LatestAt(w.hist, w.hist[i].name, w.Compacted());
    if l != 0 { assert l in w'.hist && w'.hist[l] == w.hist[l]; }
  }

  lemma WrittenStays(w: World, w': World, lo: nat, hi: nat, lost: set<nat>)
    requires Inv(w) && Inv(w') && Later(w, w') && hi <= w.db.lastId
    ensures Written(w'.hist, lo, hi, lost) == Written(w.hist, lo, hi, lost)
  {
    OrderedAgree(w.hist.Keys - lost, w'.hist.Keys - lost, lo, hi);
    var ids := OrderedBetween(w.hist.Keys - lost, lo, hi);
    assert forall k :: 0 <= k < |ids| ==> ids[k] in ids;
  }

  lemma WrittenSplit(h: Rows, lo: nat, mid: nat, hi: nat, lost: set<nat>)
    requires lo <= mid <= hi
    ensures Written(h, lo, hi, lost) == Written(h, lo, mid, lost) + Written(h, mid, hi, lost)
  {
    OrderedSplit(h.Keys - lost, lo, mid, hi);
  }

  lemma WrittenAgree(h: Rows, lo: nat, hi: nat, lost: set<nat>, lost': set<nat>)
    requires forall i :: lo < i <= hi && i in h ==> (i in lost <==> i in lost')
    ensures Written(h, lo, hi, lost) == Written(h, lo, hi, lost')
  {
    OrderedAgree(h.Keys - lost, h.Keys - lost', lo, hi);
  }

  /** What a pass publishes, said with the ids it misses. */
  lemma PassIsWritten(w: World, lo: nat, hi: nat)
    requires Inv(w)
    ensures Scanned(w.hist, OrderedBetween(KeptIds(w), lo, hi)) == Written(w.hist, lo, hi, Missing(w, lo, hi))
  {
    hide Inv, Kept;
    OrderedAgree(KeptIds(w), w.hist.Keys - Missing(w, lo, hi), lo, hi);
  }

  lemma DbKeepsLog(s: Sys, w': World)
    requires SysInv(s) && Inv(w') && Later(s.w, w')
    requires s.phase.Fetched? ==> Later(s.phase.at, w')
    ensures SysInv(s.(w := w'))
  {
    hide Inv, Kept, Written;
    WrittenStays(s.w, w', s.pollStart, s.last, s.lost);
    forall i | i in s.lost
      ensures !Kept(w'.hist, w'.Compacted(), i)
    {
      NotKeptStays(s.w, w', i);
    }
  }

  lemma PassKeepsLost(s: Sys, elapsed: bool)
    requires SysInv(s) && s.phase.Fetched?
    ensures LostOk(Next(s, PassOn(elapsed)))
  {
    hide Written, Kept, PassOver, After, TableOk, HistoryOk, CompactRevision, Real, KeptIds;
    var at := s.phase.at;
    var s' := Next(s, PassOn(elapsed));
    PassPublishes(at, s.last, s.skip, elapsed);
    forall i | i in Missing(at, s.last, s'.last)
      ensures i in s.w.hist && s.last < i <= s'.last && !Kept(s.w.hist, s.w.Compacted(), i)
    {
      NotKeptStays(at, s.w, i);
    }
  }

  lemma PassKeepsLog(s: Sys, elapsed: bool)
    requires SysInv(s) && s.phase.Fetched?
    ensures var s' := Next(s, PassOn(elapsed));
            && s.last <= s'.last <= s.w.db.lastId
            && s'.log == Written(s.w.hist, s.pollStart, s'.last, s'.lost)
            && PhaseOk(s')
  {
    hide Inv, Kept, Written, PassOver, After, OrderedBetween, Missing;
    var at := s.phase.at;
    var s' := Next(s, PassOn(elapsed));
    var gone := Missing(at, s.last, s'.last);
    PassPublishes(at, s.last, s.skip, elapsed);
    PassIsWritten(at, s.last, s'.last);
    WrittenStays(at, s.w, s.last, s'.last, gone);
    MissingIs(at, s.last, s'.last);
    WrittenAgree(s.w.hist, s.pollStart, s.last, s.lost, s'.lost);
    WrittenAgree(s.w.hist, s.last, s'.last, gone, s'.lost);
    WrittenSplit(s.w.hist, s.pollStart, s.last, s'.last, s'.lost);
  }

  lemma MissingIs(w: World, lo: nat, hi: nat)
    ensures forall i :: i in Missing(w, lo, hi) ==> lo < i <= hi
  {
  }

  lemma NextKeepsInv(s: Sys, step: SysStep)
    requires SysInv(s) && CanStep(s, step)
    ensures SysInv(Next(s, step))
  {
    hide Inv, Written, After, Apply, PassOver, Later, Missing;
    match step
    case Db(dbStep) =>
      DbStepKeepsInv(s, dbStep);
    case Fetch =>
      LaterReflexive(s.w);
    case PassOn(elapsed) =>
      PassKeepsLost(s, elapsed);
      PassKeepsLog(s, elapsed);
    case FillGap(ok) =>
      if ok { DbStepKeepsInv(s, Fill(s.phase.id)); }
  }

  lemma DbStepKeepsInv(s: Sys, step: Step)
    requires SysInv(s) && Enabled(s.w, step)
    ensures SysInv(s.(w := Apply(s.w, step)))
  {
    hide Inv, Written, After, Apply, PassOver, Later, Enabled;
    ApplyIsLater(s.w, step);
    if s.phase.Fetched? { LaterTransitive(s.phase.at, s.w, Apply(s.w, step)); }
    DbKeepsLog(s, Apply(s.w, step));
  }

  // ---------------------------------------------------------------- every run

  predicate CanRun(s: Sys, steps: seq<SysStep>)
    decreases |steps|
  {
    steps == [] || (CanStep(s, steps[0]) && CanRun(Next(s, steps[0]), steps[1..]))
  }

  function RunSys(s: Sys, steps: seq<SysStep>): Sys
    requires CanRun(s, steps)
    decreases |steps|
  {
    if steps == [] then s else RunSys(Next(s, steps[0]), steps[1..])
  }

  lemma StartInv(w: World)
    requires Inv(w)
    ensures SysInv(Start(w))
  {
    OrderedNothing(w.hist.Keys - {}, w.Compacted());
  }

  lemma {:induction false} RunSysKeepsInv(s: Sys, steps: seq<SysStep>)
    requires SysInv(s) && CanRun(s, steps)
    ensures SysInv(RunSys(s, steps))
    decreases |steps|
  {
    hide SysInv, Next, CanStep;
    if steps != [] {
      NextKeepsInv(s, steps[0]);
      RunSysKeepsInv(Next(s, steps[0]), steps[1..]);
    }
  }

  /** In every interleaving, what has been broadcast is the written history between the start and
    the poller's position, in order, each event once and as written, less the lost ids. */
  lemma StreamIsHistory(before: seq<Step>, steps: seq<SysStep>)
    requires ValidRun(INIT, before) && CanRun(Start(Run(INIT, before)), steps)
    ensures SysInv(RunSys(Start(Run(INIT, before)), steps))
  {
    hide SysInv;
    ReachableInv(before);
    StartInv(Run(INIT, before));
    RunSysKeepsInv(Start(Run(INIT, before)), steps);
  }

  /** Spelled out: revisions strictly increase; a write the poller has passed is broadcast exactly
    when it was not lost; and a lost one was a tombstone or a superseded version at or below the
    compact revision. */
  lemma StreamSpelledOut(s: Sys)
    requires SysInv(s)
    ensures forall a, b :: 0 <= a < b < |s.log| ==> s.log[a].kv.modRevision < s.log[b].kv.modRevision
    ensures forall i :: s.pollStart < i <= s.last ==> (i !in s.lost <==> Scan(i, s.w.hist[i]) in s.log)
    ensures forall i :: i in s.lost ==>
              && i in s.w.hist && i <= s.w.Compacted()
              && (s.w.hist[i].deleted || i < LatestAt(s.w.hist, s.w.hist[i].name, s.w.Compacted()))
  {
    var h := s.w.hist;
    var ids := OrderedBetween(h.Keys - s.lost, s.pollStart, s.last);
    assert forall k :: 0 <= k < |ids| ==> ids[k] in ids && s.log[k].kv.modRevision == ids[k];
    forall i | s.pollStart < i <= s.last
      ensures i in h && (i !in s.lost <==> Scan(i, h[i]) in s.log)
    {
      if i !in s.lost {
        assert i in ids;
        var k :| 0 <= k < |ids| && ids[k] == i;
        assert s.log[k] == Scan(i, h[i]);
      }
    }
  }

  /** No run of the compactor has passed the poller's position when it reads. */
  predicate NeverOvertaken(s: Sys, steps: seq<SysStep>)
    requires CanRun(s, steps)
    decreases |steps|
  {
    steps == [] || ((steps[0].Fetch? ==> s.w.Compacted() <= s.last) && NeverOvertaken(Next(s, steps[0]), steps[1..]))
  }

  ghost predicate NothingLost(s: Sys) {
    SysInv(s) && s.lost == {} && (s.phase.Fetched? ==> s.phase.at.Compacted() <= s.last)
  }

  lemma NextLosesNothing(s: Sys, step: SysStep)
    requires NothingLost(s) && CanStep(s, step) && (step.Fetch? ==> s.w.Compacted() <= s.last)
    ensures NothingLost(Next(s, step))
  {
    hide SysInv, Apply, After, PassOver;
    NextKeepsInv(s, step);
    if step.PassOn? {
      assert Missing(s.phase.at, s.last, Next(s, step).last) == {};
    }
  }

  /** If compaction never overtakes the poller, every write between the start and the poller's
    position is broadcast. */
  lemma {:induction false} NothingIsLost(s: Sys, steps: seq<SysStep>)
    requires NothingLost(s) && CanRun(s, steps) && NeverOvertaken(s, steps)
    ensures var s' := RunSys(s, steps);
            s'.lost == {} && s'.log == Written(s'.w.hist, s'.pollStart, s'.last, {})
    decreases |steps|
  {
    hide Written, CanStep, Next;
    if steps != [] {
      NextLosesNothing(s, steps[0]);
      NothingIsLost(Next(s, steps[0]), steps[1..]);
    }
  }
}
