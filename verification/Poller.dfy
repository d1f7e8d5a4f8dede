/** The poll loop that turns the table into an ordered event stream. */
module Poller {
  import opened Keys
  import opened Table
  import opened History
  import opened Queries
  import opened Driver

  const POLL_LIMIT: nat := 500

  // ---------------------------------------------------------------- one batch of rows

  /** How many of the fetched events are passed on: the scan stops at the first missing revision,
    unless that revision has been waited for long enough. */
  function Passed(events: seq<Event>, rev: nat, skip: nat, elapsed: bool): (k: nat)
    ensures k <= |events|
    decreases |events|
  {
    if events == [] then 0
    else
      var id := events[0].kv.modRevision;
      if id != rev + 1 && !(rev + 1 == skip && elapsed) then 0
      else 1 + Passed(events[1..], id, skip, elapsed)
  }

  function LastOf(events: seq<Event>, k: nat, rev: nat): nat
    requires k <= |events|
  {
    if k == 0 then rev else events[k - 1].kv.modRevision
  }

  /** The events worth publishing: gap rows only let the counter advance. */
  function Real(events: seq<Event>): seq<Event>
    decreases |events|
  {
    if events == [] then []
    else
      var rest := Real(events[..|events| - 1]);
      if IsFill(events[|events| - 1].kv.key) then rest else rest + [events[|events| - 1]]
  }

  /** Where one pass over the fetched rows leaves the poller. */
  datatype Pass = Pass(last: nat, skip: nat, out: seq<Event>, fill: Option<nat>)

  function PassOver(events: seq<Event>, last: nat, skip: nat, elapsed: bool): Pass {
    var k := Passed(events, last, skip, elapsed);
    var rev := LastOf(events, k, last);
    Pass(rev,
         if k < |events| then rev + 1 else skip,
         Real(events[..k]),
         if k < |events| && skip == rev + 1 then Some(rev + 1) else None)
  }

  lemma {:induction false} PassedStep(events: seq<Event>, rev: nat, skip: nat, elapsed: bool, k: nat)
    requires k < |events| && k <= Passed(events, rev, skip, elapsed)
    ensures var at := LastOf(events, k, rev);
            (k < Passed(events, rev, skip, elapsed))
            == (events[k].kv.modRevision == at + 1 || (at + 1 == skip && elapsed))
    decreases |events|
  {
    if k > 0 {
      PassedStep(events[1..], events[0].kv.modRevision, skip, elapsed, k - 1);
    }
  }

  lemma NothingPassed(rev: nat, skip: nat, elapsed: bool)
    ensures PassOver([], rev, skip, elapsed) == Pass(rev, skip, [], None)
  {
  }

  class Poll {
    const d: Generic
    var last: nat
    var skip: nat
    var published: seq<seq<Event>>

    constructor (d: Generic, pollStart: nat)
      ensures this.d == d && last == pollStart && skip == 0 && published == []
    {
      this.d, last, skip, published := d, pollStart, 0, [];
    }

    /** One turn of the loop: fetch, scan until a gap, publish, and fill a gap seen before. */
    method Turn(elapsed: bool)
      modifies this, d
      ensures var pass := PassOver(After(old(d.rows), old(last), 500), old(last), old(skip), elapsed);
              && last == pass.last && skip == pass.skip
              && published == (if pass.out == [] then old(published) else old(published) + [pass.out])
              && d.World() == (if pass.fill.Some? then Apply(old(d.World()), Fill(pass.fill.value)) else old(d.World()))
    {
      hide After, Apply, Passed;
      var events := After(d.rows, last, POLL_LIMIT);
      if |events| == 0 {
        assert PassOver(events, last, skip, elapsed) == Pass(last, skip, [], None) by {
          NothingPassed(last, skip, elapsed);
        }
        return;
      }
      var rev := last;
      var sequential := [];
      var saveLast := false;
      var i := 0;
      ghost var k := Passed(events, last, skip, elapsed);
      while i < |events|
        invariant 0 <= i <= k
        invariant rev == LastOf(events, i, old(last))
        invariant sequential == Real(events[..i])
        invariant saveLast == (i > 0)
        invariant last == old(last) && published == old(published)
        invariant skip == old(skip) && d.World() == old(d.World())
      {
        var event := events[i];
        var next := rev + 1;
        PassedStep(events, last, skip, elapsed, i);
        if event.kv.modRevision != next {
          if next == skip && elapsed {
          } else if skip != next {
            skip := next;
            break;
          } else {
            var _ := d.Fill(next);
            break;
          }
        }
        saveLast := true;
        rev := event.kv.modRevision;
        assert events[..i + 1][..i] == events[..i];
        if !IsFill(event.kv.key) {
          sequential := sequential + [event];
        }
        i := i + 1;
      }
      if saveLast {
        last := rev;
        if |sequential| > 0 {
          published := published + [sequential];
        }
      }
    }
  }
}
