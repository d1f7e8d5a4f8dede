/** The poller catches up: with a quiet database and fills that succeed, every gap costs it at
  most three turns. */
module Progress {
  import opened Table
  import opened History
  import opened Writes
  import opened Runs
  import opened Queries
  import opened Poller
  import opened Stream

  datatype Quiet = Quiet(w: World, last: nat, skip: nat)

  /** One turn of the poll loop with nobody else acting, as Poll.Turn takes it. */
  function TurnOf(q: Quiet, elapsed: bool): Quiet {
    var pass := PassOver(After(q.w.db.rows, q.last, POLL_LIMIT), q.last, q.skip, elapsed);
    Quiet(if pass.fill.Some? then Apply(q.w, Fill(pass.fill.value)) else q.w, pass.last, pass.skip)
  }

  function TurnsOf(q: Quiet, elapsed: seq<bool>): Quiet
    decreases |elapsed|
  {
    if elapsed == [] then q else TurnsOf(TurnOf(q, elapsed[0]), elapsed[1..])
  }

  ghost predicate QuietOk(q: Quiet) {
    Inv(q.w) && q.last <= q.w.db.lastId
  }

  /** Where the stream's state machine is after the query, the scan and a fill that is carried out. */
  function StepsOf(s: Sys, elapsed: bool): Sys
    requires s.phase.Idle?
  {
    var scanned := Next(Next(s, Fetch), PassOn(elapsed));
    if scanned.phase.Filling? then Next(scanned, FillGap(true)) else scanned
  }

  /** The steps that the state machine of the stream takes for one turn, with nobody between them and a fill that is
    carried out, are that turn; they publish what it passes. */
  lemma StepsAreTurn(s: Sys, elapsed: bool)
    requires s.phase.Idle?
    ensures var turn, done := TurnOf(Quiet(s.w, s.last, s.skip), elapsed), StepsOf(s, elapsed);
            var pass := PassOver(After(s.w.db.rows, s.last, 500), s.last, s.skip, elapsed);
            && done.phase == Idle && Quiet(done.w, done.last, done.skip) == turn
            && done.log == s.log + pass.out && done.pollStart == s.pollStart
  {
    hide After, PassOver, Apply, Missing;
  }

  lemma ApplyFill(w: World, id: nat)
    requires Inv(w) && 1 <= id <= w.db.lastId
    ensures var w' := Apply(w, Fill(id));
            && Inv(w') && w'.db.lastId == w.db.lastId && w'.hist == w.hist
            && id in w'.db.rows && (forall i :: i in w.db.rows ==> i in w'.db.rows)
  {
    hide Inv;
    FillKeepsInv(w, id);
  }

  lemma TurnKeeps(q: Quiet, elapsed: bool)
    requires QuietOk(q)
    ensures var q' := TurnOf(q, elapsed);
            && QuietOk(q') && q'.w.db.lastId == q.w.db.lastId
            && q.last <= q'.last
            && (forall i :: i in q.w.db.rows ==> i in q'.w.db.rows)
  {
    hide Inv, After, PassOver, Apply;
    PassPublishes(q.w, q.last, q.skip, elapsed);
    var pass := PassOver(After(q.w.db.rows, q.last, POLL_LIMIT), q.last, q.skip, elapsed);
    if pass.fill.Some? { ApplyFill(q.w, pass.fill.value); }
  }

  /** The first row above the position is the next revision, if that is there. */
  lemma FirstAbove(rows: Rows, last: nat, limit: nat)
    requires last < MaxOf(rows.Keys)
    ensures var events := After(rows, last, limit);
            && |events| > 0
            && (events[0].kv.modRevision == last + 1 <==> last + 1 in rows)
            && forall k :: 0 <= k < |events| ==> events[k].kv.modRevision > last
  {
    var all := OrderedBetween(rows.Keys, last, MaxOf(rows.Keys));
    assert MaxOf(rows.Keys) in all;
    var ids := Limit(all, limit);
    assert forall k :: 0 <= k < |ids| ==> ids[k] in all;
    if last + 1 in rows {
      assert last + 1 in all;
      var k :| 0 <= k < |all| && all[k] == last + 1;
      assert all[0] in all && all[0] <= all[k];
    }
  }

  /** A turn advances, or notes the missing revision, or fills it. */
  lemma TurnCases(q: Quiet, elapsed: bool)
    requires QuietOk(q) && q.last < q.w.db.lastId
    ensures var q', next := TurnOf(q, elapsed), q.last + 1;
            || q'.last > q.last
            || (q'.last == q.last && next !in q.w.db.rows && q.skip != next && q'.skip == next && q'.w == q.w)
            || (q'.last == q.last && next !in q.w.db.rows && q.skip == next && q'.skip == next && next in q'.w.db.rows)
    ensures q.last + 1 in q.w.db.rows ==> TurnOf(q, elapsed).last > q.last
  {
    hide Inv, After, Apply;
    var events := After(q.w.db.rows, q.last, POLL_LIMIT);
    MaxIdIsNewest(q.w);
    FirstAbove(q.w.db.rows, q.last, POLL_LIMIT);
    var k := Passed(events, q.last, q.skip, elapsed);
    if k == 0 && q.skip == q.last + 1 { ApplyFill(q.w, q.last + 1); }
  }

  /** Any three consecutive turns short of the newest revision move the position. */
  lemma ThreeTurnsAdvance(q: Quiet, a: bool, b: bool, c: bool)
    requires QuietOk(q) && q.last < q.w.db.lastId
    ensures TurnOf(TurnOf(TurnOf(q, a), b), c).last > q.last
  {
    hide Inv, TurnOf;
    var q1 := TurnOf(q, a);
    var q2 := TurnOf(q1, b);
    TurnKeeps(q, a);
    TurnKeeps(q1, b);
    TurnKeeps(q2, c);
    TurnCases(q, a);
    if q1.last == q.last { TurnCases(q1, b); }
    if q2.last == q.last { TurnCases(q2, c); }
  }

  lemma OrderedSnoc(s: set<nat>, lo: nat, hi: nat)
    requires lo < hi && hi in s
    ensures OrderedBetween(s, lo, hi) == OrderedBetween(s, lo, hi - 1) + [hi]
  {
  }

  lemma {:induction false} FullInterval(s: set<nat>, lo: nat, hi: nat)
    requires lo <= hi && forall i :: lo < i <= hi ==> i in s
    ensures var q := OrderedBetween(s, lo, hi); |q| == hi - lo && forall k :: 0 <= k < |q| ==> q[k] == lo + 1 + k
    decreases hi
  {
    hide OrderedBetween, Ascending;
    if lo < hi {
      FullInterval(s, lo, hi - 1);
      OrderedSnoc(s, lo, hi);
    } else {
      OrderedNothing(s, lo);
    }
  }

  lemma {:induction false} AllPassed(events: seq<Event>, rev: nat, skip: nat, elapsed: bool)
    requires forall k :: 0 <= k < |events| ==> events[k].kv.modRevision == rev + 1 + k
    ensures Passed(events, rev, skip, elapsed) == |events|
    decreases |events|
  {
    if events != [] { AllPassed(events[1..], rev + 1, skip, elapsed); }
  }

  /** At or above the compact revision there are no gaps, and one pass takes all that fits in it. */
  lemma PassReachesEnd(w: World, last: nat, skip: nat, elapsed: bool)
    requires Inv(w) && w.Compacted() <= last <= w.db.lastId <= last + 500
    ensures var pass := PassOver(After(w.db.rows, last, POLL_LIMIT), last, skip, elapsed);
            pass.last == w.db.lastId && pass.fill == None
  {
    hide Inv, OrderedBetween, Real;
    MaxIdIsNewest(w);
    forall i | last < i <= w.db.lastId ensures i in w.db.rows { NoHoleAboveCompacted(w, i); WrittenIds(w, i); }
    FullInterval(w.db.rows.Keys, last, w.db.lastId);
    AllPassed(After(w.db.rows, last, POLL_LIMIT), last, skip, elapsed);
  }

  lemma {:induction false} TurnsKeep(q: Quiet, elapsed: seq<bool>)
    requires QuietOk(q)
    ensures var q' := TurnsOf(q, elapsed);
            QuietOk(q') && q'.w.db.lastId == q.w.db.lastId && q.last <= q'.last
    decreases |elapsed|
  {
    hide QuietOk, TurnOf;
    if elapsed != [] {
      TurnKeeps(q, elapsed[0]);
      TurnsKeep(TurnOf(q, elapsed[0]), elapsed[1..]);
    }
  }

  /** Three turns per outstanding revision are enough to reach the newest one. */
  lemma {:induction false} CatchesUp(q: Quiet, elapsed: seq<bool>)
    requires QuietOk(q) && |elapsed| >= 3 * (q.w.db.lastId - q.last)
    ensures TurnsOf(q, elapsed).last == q.w.db.lastId
    decreases |elapsed|
  {
    hide Inv, TurnOf;
    if q.last == q.w.db.lastId {
      TurnsKeep(q, elapsed);
    } else {
      var q1 := TurnOf(q, elapsed[0]);
      var q2 := TurnOf(q1, elapsed[1]);
      var q3 := TurnOf(q2, elapsed[2]);
      TurnKeeps(q, elapsed[0]);
      TurnKeeps(q1, elapsed[1]);
      TurnKeeps(q2, elapsed[2]);
      ThreeTurnsAdvance(q, elapsed[0], elapsed[1], elapsed[2]);
      var rest := elapsed[1..][1..][1..];
      assert TurnsOf(q1, elapsed[1..]) == TurnsOf(q2, elapsed[1..][1..]);
      assert TurnsOf(q2, elapsed[1..][1..]) == TurnsOf(q3, rest);
      CatchesUp(q3, rest);
    }
  }
}
