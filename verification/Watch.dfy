/** A watch: subscribe, catch up from the table, then follow the stream. */
module Watch {
  import opened Keys
  import opened Table
  import opened History
  import opened Runs
  import opened Snapshots
  import opened Queries
  import opened Stream

  // ---------------------------------------------------------------- the two filters

  function Matching(events: seq<Event>, prefix: string): seq<Event>
    decreases |events|
  {
    if events == [] then []
    else
      var rest, e := Matching(events[..|events| - 1], prefix), events[|events| - 1];
      if Matches(e.kv.key, prefix) then rest + [e] else rest
  }

  /** SQLLog.filter: the events of a prefix. */
  method Filter(events: seq<Event>, checkPrefix: bool, prefix: string) returns (out: seq<Event>, ok: bool)
    requires checkPrefix == EndsWithSlash(prefix)
    ensures out == Matching(events, prefix) && ok == (out != [])
  {
    out := [];
    for i := 0 to |events|
      invariant out == Matching(events[..i], prefix)
    {
      assert events[..i + 1][..i] == events[..i];
      var event := events[i];
      if (checkPrefix && prefix <= event.kv.key) || event.kv.key == prefix {
        out := out + [event];
      }
    }
    assert events[..|events|] == events;
    ok := |out| > 0;
  }

  /** LogStructured's filter: drops leading events that catching up has already covered. */
  method DropCovered(events: seq<Event>, rev: nat) returns (rest: seq<Event>)
    ensures rest == [] || rest[0].kv.modRevision > rev
    ensures |rest| <= |events| && rest == events[|events| - |rest|..]
    ensures forall k :: 0 <= k < |events| - |rest| ==> events[k].kv.modRevision <= rev
    ensures RevisionsAscend(events) ==> rest == Newer(events, rev)
  {
    hide Newer, RevisionsAscend;
    rest := events;
    ghost var n := 0;
    while |rest| > 0 && rest[0].kv.modRevision <= rev
      invariant n <= |events| && rest == events[n..]
      invariant forall k :: 0 <= k < n ==> events[k].kv.modRevision <= rev
      invariant Newer(rest, rev) == Newer(events, rev)
      decreases |rest|
    {
      NewerSkips(rest, rev);
      assert rest[0] == events[n] && rest[1..] == events[n + 1..];
      rest := rest[1..];
      n := n + 1;
    }
    if RevisionsAscend(events) {
      SuffixAscends(events, n);
      NewerKeeps(rest, rev);
    }
  }

  predicate RevisionsAscend(events: seq<Event>) {
    forall a, b :: 0 <= a < b < |events| ==> events[a].kv.modRevision < events[b].kv.modRevision
  }

  lemma SuffixAscends(events: seq<Event>, k: nat)
    requires RevisionsAscend(events) && k <= |events|
    ensures RevisionsAscend(events[k..])
  {
  }

  /** The events above a revision, wherever they stand. */
  function Newer(events: seq<Event>, rev: nat): seq<Event>
    decreases |events|
  {
    if events == [] then []
    else
      var rest, e := Newer(events[..|events| - 1], rev), events[|events| - 1];
      if e.kv.modRevision > rev then rest + [e] else rest
  }

  lemma {:induction false} NewerSkips(events: seq<Event>, rev: nat)
    requires events != [] && events[0].kv.modRevision <= rev
    ensures Newer(events[1..], rev) == Newer(events, rev)
    decreases |events|
  {
    var n := |events|;
    if n > 1 {
      NewerSkips(events[..n - 1], rev);
      assert events[..n - 1][1..] == events[1..][..n - 2];
    }
  }

  lemma {:induction false} NewerKeeps(events: seq<Event>, rev: nat)
    requires RevisionsAscend(events) && (events == [] || events[0].kv.modRevision > rev)
    ensures Newer(events, rev) == events
    decreases |events|
  {
    var n := |events|;
    if n > 0 {
      NewerKeeps(events[..n - 1], rev);
      assert events == events[..n - 1] + [events[n - 1]];
    }
  }

  lemma {:induction false} NewerAppend(a: seq<Event>, b: seq<Event>, rev: nat)
    ensures Newer(a + b, rev) == Newer(a, rev) + Newer(b, rev)
    decreases |b|
  {
    if b == [] {
      assert a + b == a;
    } else {
      NewerAppend(a, b[..|b| - 1], rev);
      assert (a + b)[..|a + b| - 1] == a + b[..|b| - 1];
    }
  }

  lemma {:induction false} MatchingAppend(a: seq<Event>, b: seq<Event>, prefix: string)
    ensures Matching(a + b, prefix) == Matching(a, prefix) + Matching(b, prefix)
    decreases |b|
  {
    if b == [] {
      assert a + b == a;
    } else {
      MatchingAppend(a, b[..|b| - 1], prefix);
      assert (a + b)[..|a + b| - 1] == a + b[..|b| - 1];
    }
  }

  lemma {:induction false} MatchingAscends(events: seq<Event>, prefix: string)
    requires RevisionsAscend(events)
    ensures RevisionsAscend(Matching(events, prefix))
    ensures forall e :: e in Matching(events, prefix) ==> e in events
    decreases |events|
  {
    var n := |events|;
    if n > 0 {
      MatchingAscends(events[..n - 1], prefix);
      var rest := Matching(events[..n - 1], prefix);
      forall k | 0 <= k < |rest|
        ensures rest[k].kv.modRevision < events[n - 1].kv.modRevision
      {
        assert rest[k] in events[..n - 1];
      }
    }
  }

  // ---------------------------------------------------------------- what a watch delivers

  function Flat(batches: seq<seq<Event>>): seq<Event>
    decreases |batches|
  {
    if batches == [] then [] else Flat(batches[..|batches| - 1]) + batches[|batches| - 1]
  }

  /** The revision up to which the catch-up answered. */
  function Covered(kvs: seq<Event>, revision: nat, rev: nat): nat {
    if kvs == [] then revision else rev
  }

  /** The watch goroutine: the catch-up events, then the stream's batches through both filters. */
  method Deliver(kvs: seq<Event>, batches: seq<seq<Event>>, prefix: string, revision: nat, rev: nat)
    returns (result: seq<Event>)
    requires RevisionsAscend(Flat(batches))
    ensures result == kvs + Newer(Matching(Flat(batches), prefix), Covered(kvs, revision, rev))
  {
    hide Newer, Matching, RevisionsAscend, Matches, Flat;
    var lastRevision := revision;
    if |kvs| > 0 {
      lastRevision := rev;
    }
    result := kvs;
    NothingFollows(prefix, lastRevision);
    assert kvs + [] == kvs && batches[..0] == [];
    for i := 0 to |batches|
      invariant result == kvs + Newer(Matching(Flat(batches[..i]), prefix), lastRevision)
    {
      assert batches[..i + 1] == batches[..i] + [batches[i]];
      FlatSnoc(batches[..i], batches[i]);
      BatchAscends(batches, i);
      MatchingAscends(batches[i], prefix);
      MatchingAppend(Flat(batches[..i]), batches[i], prefix);
      NewerAppend(Matching(Flat(batches[..i]), prefix), Matching(batches[i], prefix), lastRevision);
      var events, _ := Filter(batches[i], EndsWithSlash(prefix), prefix);
      var rest := DropCovered(events, lastRevision);
      result := result + rest;
    }
    assert batches[..|batches|] == batches;
  }

  lemma NothingFollows(prefix: string, rev: nat)
    ensures Newer(Matching(Flat([]), prefix), rev) == []
  {
  }

  lemma PartsAscend(a: seq<Event>, b: seq<Event>)
    requires RevisionsAscend(a + b)
    ensures RevisionsAscend(a) && RevisionsAscend(b)
  {
    assert forall k :: 0 <= k < |a| ==> a[k] == (a + b)[k];
    assert forall k :: 0 <= k < |b| ==> b[k] == (a + b)[|a| + k];
  }

  lemma {:induction false} BatchAscends(batches: seq<seq<Event>>, i: nat)
    requires RevisionsAscend(Flat(batches)) && i < |batches|
    ensures RevisionsAscend(batches[i])
    decreases |batches|
  {
    var n := |batches|;
    var init := batches[..n - 1];
    PartsAscend(Flat(init), batches[n - 1]);
    if i < n - 1 { BatchAscends(init, i); }
  }

  // ---------------------------------------------------------------- and what it should deliver

  function MatchIds(h: Rows, prefix: string): set<nat> {
    set i | i in h && Matches(h[i].name, prefix)
  }

  /** The written events of a prefix above lo and up to hi, without the lost ones. */
  function Wanted(h: Rows, prefix: string, lo: nat, hi: nat, lost: set<nat>): seq<Event> {
    Scanned(h, OrderedBetween(MatchIds(h, prefix) - lost, lo, hi))
  }

  lemma WantedSplit(h: Rows, prefix: string, lo: nat, mid: nat, hi: nat, lost: set<nat>)
    requires lo <= mid <= hi
    ensures Wanted(h, prefix, lo, hi, lost) == Wanted(h, prefix, lo, mid, lost) + Wanted(h, prefix, mid, hi, lost)
  {
    OrderedSplit(MatchIds(h, prefix) - lost, lo, mid, hi);
  }

  lemma WantedNothing(h: Rows, prefix: string, lo: nat, hi: nat, lost: set<nat>)
    requires hi <= lo
    ensures Wanted(h, prefix, lo, hi, lost) == []
  {
  }

  lemma WantedAgree(h: Rows, prefix: string, lo: nat, hi: nat, lost: set<nat>, lost': set<nat>)
    requires forall i :: lo < i <= hi ==> (i in lost <==> i in lost')
    ensures Wanted(h, prefix, lo, hi, lost) == Wanted(h, prefix, lo, hi, lost')
  {
    OrderedAgree(MatchIds(h, prefix) - lost, MatchIds(h, prefix) - lost', lo, hi);
  }

  /** What is wanted is exactly the matching events of the interval that are not lost. */
  lemma WantedIs(h: Rows, prefix: string, lo: nat, hi: nat, lost: set<nat>, e: Event)
    ensures e in Wanted(h, prefix, lo, hi, lost)
       <==> exists i :: i in h && Matches(h[i].name, prefix) && i !in lost && lo < i <= hi && e == Scan(i, h[i])
  {
    var ids := OrderedBetween(MatchIds(h, prefix) - lost, lo, hi);
    if i :| i in h && Matches(h[i].name, prefix) && i !in lost && lo < i <= hi && e == Scan(i, h[i]) {
      assert i in ids;
      var k :| 0 <= k < |ids| && ids[k] == i;
      assert Scanned(h, ids)[k] == e;
    }
    if e in Scanned(h, ids) {
      var k :| 0 <= k < |ids| && Scanned(h, ids)[k] == e;
      assert ids[k] in ids;
    }
  }

  lemma NoneWanted(h: Rows, prefix: string, lo: nat, hi: nat, lost: set<nat>)
    requires Wanted(h, prefix, lo, hi, {}) == []
    ensures Wanted(h, prefix, lo, hi, lost) == []
  {
    hide Wanted;
    if Wanted(h, prefix, lo, hi, lost) != [] {
      var e := Wanted(h, prefix, lo, hi, lost)[0];
      assert e in Wanted(h, prefix, lo, hi, lost);
      WantedIs(h, prefix, lo, hi, lost, e);
      WantedIs(h, prefix, lo, hi, {}, e);
    }
  }

  lemma {:induction false} MatchingWritten(h: Rows, prefix: string, lo: nat, hi: nat, lost: set<nat>)
    ensures Matching(Written(h, lo, hi, lost), prefix) == Wanted(h, prefix, lo, hi, lost)
    decreases hi
  {
    hide Scanned, Matching;
    if lo < hi {
      MatchingWritten(h, prefix, lo, hi - 1, lost);
      if hi in h && hi !in lost {
        var all := OrderedBetween(h.Keys - lost, lo, hi - 1);
        var some := OrderedBetween(MatchIds(h, prefix) - lost, lo, hi - 1);
        ScannedSnoc(h, all, hi);
        MatchingSnoc(Scanned(h, all), Scan(hi, h[hi]), prefix);
        if hi in MatchIds(h, prefix) { ScannedSnoc(h, some, hi); }
      }
    } else {
      MatchingNothing(prefix);
    }
  }

  lemma MatchingNothing(prefix: string)
    ensures Matching([], prefix) == []
  {
  }

  lemma MatchingSnoc(events: seq<Event>, e: Event, prefix: string)
    ensures Matching(events + [e], prefix)
            == if Matches(e.kv.key, prefix) then Matching(events, prefix) + [e] else Matching(events, prefix)
  {
    assert (events + [e])[..|events|] == events;
  }

  lemma NewerSnoc(events: seq<Event>, e: Event, rev: nat)
    ensures Newer(events + [e], rev) == if e.kv.modRevision > rev then Newer(events, rev) + [e] else Newer(events, rev)
  {
    assert (events + [e])[..|events|] == events;
  }

  lemma {:induction false} NewerWanted(h: Rows, prefix: string, lo: nat, hi: nat, lost: set<nat>, rev: nat)
    ensures Newer(Wanted(h, prefix, lo, hi, lost), rev) == Wanted(h, prefix, Max(lo, rev), hi, lost)
    decreases hi
  {
    hide Scanned, Newer, MatchIds;
    if lo < hi {
      NewerWanted(h, prefix, lo, hi - 1, lost, rev);
      if hi in MatchIds(h, prefix) && hi !in lost {
        MatchIdsWritten(h, prefix);
        var all := MatchIds(h, prefix) - lost;
        var ids, ids' := OrderedBetween(all, lo, hi - 1), OrderedBetween(all, Max(lo, rev), hi - 1);
        ScannedSnoc(h, ids, hi);
        NewerSnoc(Scanned(h, ids), Scan(hi, h[hi]), rev);
        if rev < hi { ScannedSnoc(h, ids', hi); }
      }
    } else {
      assert Newer([], rev) == [] by { NewerNothing(rev); }
    }
  }

  lemma NewerNothing(rev: nat)
    ensures Newer([], rev) == []
  {
  }

  lemma MatchIdsWritten(h: Rows, prefix: string)
    ensures forall i :: i in MatchIds(h, prefix) ==> i in h
  {
  }

  /** An After query that is not refused afterwards returns exactly the wanted events so far. */
  lemma CatchUpIsWanted(w1: World, w2: World, w: World, prefix: string, rev: nat)
    requires Inv(w1) && Inv(w2) && Inv(w) && Later(w1, w2) && Later(w1, w) && w2.Compacted() <= rev
    ensures AfterPrefix(w1.db.rows, prefix, rev, 0) == Wanted(w.hist, prefix, rev, w1.db.lastId, {})
  {
    hide Inv;
    MaxIdIsNewest(w1);
    var a, b := PrefixIds(w1.db.rows, prefix), MatchIds(w.hist, prefix) - {};
    forall i | rev < i <= w1.db.lastId
      ensures i in a <==> i in b
      ensures i in a ==> Scan(i, w1.db.rows[i]) == Scan(i, w.hist[i])
    {
      AfterIsComplete(w1, w2, rev, i);
      PrefixIdsMatch(w1, prefix, i);
      WrittenIds(w1, i);
    }
    OrderedAgree(a, b, rev, w1.db.lastId);
    var ids := OrderedBetween(a, rev, w1.db.lastId);
    assert forall k :: 0 <= k < |ids| ==> ids[k] in ids;
  }

  // ---------------------------------------------------------------- exactly once

  /** The lost ids above a revision. */
  function Beyond(lost: set<nat>, a: nat): set<nat> {
    set i | i in lost && i > a
  }

  /** With nothing to catch up, the stream alone has everything wanted. */
  lemma StreamAlone(h: Rows, prefix: string, rev: nat, lo: nat, a: nat, hi: nat, lost: set<nat>)
    requires lo <= a && Wanted(h, prefix, rev, a, {}) == []
    ensures Wanted(h, prefix, Max(lo, rev), hi, lost) == Wanted(h, prefix, rev, Max(hi, a), Beyond(lost, a))
  {
    hide Wanted;
    var m, top := Max(lo, rev), Max(hi, a);
    if rev < a {
      NoneWanted(h, prefix, rev, a, lost);
      NoneWanted(h, prefix, rev, a, Beyond(lost, a));
      WantedAgree(h, prefix, a, top, lost, Beyond(lost, a));
      WantedSplit(h, prefix, rev, a, top, lost);
      WantedSplit(h, prefix, rev, a, top, Beyond(lost, a));
      WantedSplit(h, prefix, rev, m, a, lost);
      if hi <= m {
        WantedNothing(h, prefix, m, hi, lost);
        WantedNothing(h, prefix, a, top, lost);
      } else if hi <= a {
        WantedSplit(h, prefix, m, hi, a, lost);
        WantedNothing(h, prefix, a, top, lost);
      } else {
        WantedSplit(h, prefix, m, a, hi, lost);
      }
    } else {
      WantedAgree(h, prefix, rev, hi, lost, Beyond(lost, a));
      if hi <= a {
        WantedNothing(h, prefix, rev, hi, lost);
        WantedNothing(h, prefix, rev, a, Beyond(lost, a));
      }
    }
  }

  /** With a catch-up, the stream completes it unless a wanted write slipped between the row query
    and the revision query. */
  lemma StreamCompletes(h: Rows, prefix: string, rev: nat, a: nat, b: nat, hi: nat, lost: set<nat>)
    requires rev <= a <= b
    ensures Wanted(h, prefix, rev, a, {}) + Wanted(h, prefix, b, hi, lost)
            == Wanted(h, prefix, rev, Max(hi, a), Beyond(lost, a))
       <==> Wanted(h, prefix, a, Min(b, hi), lost) == []
  {
    hide Wanted;
    WantedAgree(h, prefix, rev, a, {}, Beyond(lost, a));
    if hi <= a {
      WantedNothing(h, prefix, b, hi, lost);
      WantedNothing(h, prefix, a, Min(b, hi), lost);
    } else {
      WantedAgree(h, prefix, a, hi, lost, Beyond(lost, a));
      WantedSplit(h, prefix, rev, a, hi, Beyond(lost, a));
      var first, live := Wanted(h, prefix, rev, a, {}), Wanted(h, prefix, b, hi, lost);
      var tail := Wanted(h, prefix, a, hi, lost);
      assert (first + live)[|first|..] == live && (first + tail)[|first|..] == tail;
      if hi <= b {
        WantedNothing(h, prefix, b, hi, lost);
      } else {
        WantedSplit(h, prefix, a, b, hi, lost);
      }
    }
  }

  lemma {:induction false} FlatAppend(a: seq<seq<Event>>, b: seq<seq<Event>>)
    ensures Flat(a + b) == Flat(a) + Flat(b)
    decreases |b|
  {
    if b == [] {
      assert a + b == a;
    } else {
      var init, last := b[..|b| - 1], b[|b| - 1];
      FlatAppend(a, init);
      FlatSnoc(a + init, last);
      FlatSnoc(init, last);
      hide Flat;
      assert a + b == a + init + [last] && b == init + [last];
    }
  }

  lemma FlatSnoc(batches: seq<seq<Event>>, batch: seq<Event>)
    ensures Flat(batches + [batch]) == Flat(batches) + batch
  {
    assert (batches + [batch])[..|batches|] == batches;
  }

  /** A watch from revision rev + 1, from its catch-up and what it received. */
  function Delivered(w1: World, w2: World, received: seq<Event>, prefix: string, rev: nat): seq<Event> {
    var kvs := AfterPrefix(w1.db.rows, prefix, rev, 0);
    kvs + Newer(Matching(received, prefix), Covered(kvs, rev, MaxId(w2.db)))
  }

  /** A watch from revision rev + 1 that is not refused and receives the stream between lo and hi
    delivers exactly the wanted events, in order and once each - those the stream lost excepted, if they
    were written after the catch-up's row query (w1) - if and only if it had nothing to catch up or no
    wanted write fell between that query and the revision query (w2). */
  lemma WatchIsExact(w1: World, w2: World, w: World, received: seq<Event>, lo: nat, hi: nat, lost: set<nat>,
                     prefix: string, rev: nat)
    requires Inv(w1) && Inv(w2) && Inv(w) && Later(w1, w2) && Later(w1, w)
    requires received == Written(w.hist, lo, hi, lost) && lo <= w1.db.lastId
    requires w2.Compacted() <= rev
    ensures Delivered(w1, w2, received, prefix, rev)
            == Wanted(w.hist, prefix, rev, Max(hi, w1.db.lastId), Beyond(lost, w1.db.lastId))
       <==> AfterPrefix(w1.db.rows, prefix, rev, 0) == []
            || Wanted(w.hist, prefix, w1.db.lastId, Min(w2.db.lastId, hi), lost) == []
  {
    hide Inv, Wanted, AfterPrefix, Newer, Matching, Written, MaxId, CompactRevision, Beyond;
    MatchingWritten(w.hist, prefix, lo, hi, lost);
    CatchUpIsWanted(w1, w2, w, prefix, rev);
    MaxIdIsNewest(w2);
    var kvs := AfterPrefix(w1.db.rows, prefix, rev, 0);
    NewerWanted(w.hist, prefix, lo, hi, lost, Covered(kvs, rev, MaxId(w2.db)));
    if kvs == [] {
      StreamAlone(w.hist, prefix, rev, lo, w1.db.lastId, hi, lost);
      var live := Newer(Matching(received, prefix), rev);
      assert [] + live == live;
    } else {
      if w1.db.lastId < rev { WantedNothing(w.hist, prefix, rev, w1.db.lastId, {}); }
      StreamCompletes(w.hist, prefix, rev, w1.db.lastId, w2.db.lastId, hi, lost);
    }
  }

  lemma {:induction false} NewerIsAbove(events: seq<Event>, rev: nat)
    ensures forall e :: e in Newer(events, rev) ==> e.kv.modRevision > rev
    decreases |events|
  {
    if events != [] { NewerIsAbove(events[..|events| - 1], rev); }
  }

  lemma CatchUpIsBetween(rows: Rows, prefix: string, rev: nat)
    ensures forall e :: e in AfterPrefix(rows, prefix, rev, 0) ==> rev < e.kv.modRevision <= MaxOf(rows.Keys)
  {
    var ids := OrderedBetween(PrefixIds(rows, prefix), rev, MaxOf(rows.Keys));
    assert forall k :: 0 <= k < |ids| ==> ids[k] in ids;
  }

  /** What a watch delivers is above its revision, and if there was something to catch up it has
    nothing of what was written between its two reads, however long it goes on. */
  lemma WindowIsLost(w1: World, w2: World, received: seq<Event>, prefix: string, rev: nat, e: Event)
    requires Inv(w1) && Inv(w2) && Later(w1, w2) && e in Delivered(w1, w2, received, prefix, rev)
    ensures e.kv.modRevision > rev
    ensures AfterPrefix(w1.db.rows, prefix, rev, 0) != [] ==>
              e.kv.modRevision <= w1.db.lastId || e.kv.modRevision > w2.db.lastId
  {
    hide Inv, AfterPrefix, Newer, Matching;
    MaxIdIsNewest(w1);
    MaxIdIsNewest(w2);
    CatchUpIsBetween(w1.db.rows, prefix, rev);
    var kvs := AfterPrefix(w1.db.rows, prefix, rev, 0);
    if kvs != [] { assert kvs[0] in kvs; }
    NewerIsAbove(Matching(received, prefix), Covered(kvs, rev, MaxId(w2.db)));
  }

  // ---------------------------------------------------------------- what any watch delivers

  /** The written ids compaction has taken from a world's table. */
  function Unkept(w: World): set<nat> {
    set i | i in w.hist && !Kept(w.hist, w.Compacted(), i)
  }

  /** No prefix but a gap's own name matches a gap row. */
  lemma GapsDoNotMatch(name: string, prefix: string)
    requires IsFill(name) && !IsFill(prefix) && '/' !in name
    ensures !Matches(name, prefix)
  {
    assert 0 < |prefix| <= |name| ==> name[|prefix| - 1] in name;
  }

  lemma FillNameHasNoSlash(id: nat)
    ensures '/' !in FillName(id)
  {
    assert '/' !in Decimal(id) && '/' !in FILL_PREFIX;
  }

  /** A catch-up, refused or not, has the matching events that are still kept. */
  lemma CatchUpIsKept(w1: World, w: World, prefix: string, rev: nat)
    requires Inv(w1) && Inv(w) && Later(w1, w) && !IsFill(prefix)
    ensures AfterPrefix(w1.db.rows, prefix, rev, 0) == Wanted(w.hist, prefix, rev, w1.db.lastId, Unkept(w1))
  {
    hide Inv, Kept, CompactRevision;
    MaxIdIsNewest(w1);
    var a, b := PrefixIds(w1.db.rows, prefix), MatchIds(w.hist, prefix) - Unkept(w1);
    forall i | rev < i <= w1.db.lastId
      ensures i in a <==> i in b
      ensures i in a ==> Scan(i, w1.db.rows[i]) == Scan(i, w.hist[i])
    {
      PrefixIdsMatch(w1, prefix, i);
      RowIsRealOrGap(w1, i);
      WrittenIds(w1, i);
      if i in w1.db.rows { GapOrName(w1, i); }
      if i in w1.db.rows && IsFill(w1.db.rows[i].name) { GapsDoNotMatch(w1.db.rows[i].name, prefix); }
    }
    OrderedAgree(a, b, rev, w1.db.lastId);
    var ids := OrderedBetween(a, rev, w1.db.lastId);
    assert forall k :: 0 <= k < |ids| ==> ids[k] in ids;
  }

  lemma GapOrName(w: World, i: nat)
    requires Inv(w) && i in w.db.rows
    ensures if IsFill(w.db.rows[i].name) then '/' !in w.db.rows[i].name else w.db.rows[i].name == w.hist[i].name
  {
    CompactKeyIsNotFill();
    FillNameHasNoSlash(i);
  }

  /** The ids that a watch misses of those above its revision: without a catch-up, what the stream had passed when
    it joined, has not reached, or lost; otherwise what compaction had taken from the catch-up, what was
    written between its two reads, and what the stream has not reached or lost since. */
  function Missed(w1: World, w2: World, w: World, caughtUp: bool, lo: nat, hi: nat, lost: set<nat>): set<nat> {
    set i | i in w.hist && (if !caughtUp then i <= lo || i > hi || i in lost
                            else if i <= w1.db.lastId then i in Unkept(w1)
                            else i <= w2.db.lastId || i > hi || i in lost)
  }

  lemma AllGone(h: Rows, prefix: string, lo: nat, hi: nat, gone: set<nat>)
    requires forall i :: lo < i <= hi && i in h ==> i in gone
    ensures Wanted(h, prefix, lo, hi, gone) == []
  {
    OrderedAgree(MatchIds(h, prefix) - gone, {}, lo, hi);
    OrderedEmpty(lo, hi);
  }

  lemma WantedSame(h: Rows, prefix: string, lo: nat, hi: nat, lost: set<nat>, lost': set<nat>)
    requires forall i :: lo < i <= hi && i in h ==> (i in lost <==> i in lost')
    ensures Wanted(h, prefix, lo, hi, lost) == Wanted(h, prefix, lo, hi, lost')
  {
    OrderedAgree(MatchIds(h, prefix) - lost, MatchIds(h, prefix) - lost', lo, hi);
  }

  /** Three stretches, the outer ones gone. */
  lemma MiddleIsLeft(h: Rows, prefix: string, rev: nat, m: nat, hi: nat, top: nat, gone: set<nat>, lost: set<nat>)
    requires rev <= m && hi <= top
    requires forall i :: i in h && rev < i <= top ==> (i in gone <==> i <= m || i > hi || i in lost)
    ensures Wanted(h, prefix, m, hi, lost) == Wanted(h, prefix, rev, top, gone)
  {
    hide Wanted;
    if m <= hi {
      WantedSplit(h, prefix, rev, m, top, gone);
      WantedSplit(h, prefix, m, hi, top, gone);
      AllGone(h, prefix, rev, m, gone);
      AllGone(h, prefix, hi, top, gone);
      WantedSame(h, prefix, m, hi, gone, lost);
    } else {
      WantedNothing(h, prefix, m, hi, lost);
      AllGone(h, prefix, rev, top, gone);
    }
  }

  /** What any watch delivers, refused or not and from whatever revision: the matching events above its revision that
    it does not miss, in order and once each. */
  lemma WatchDelivers(w1: World, w2: World, w: World, received: seq<Event>, lo: nat, hi: nat, lost: set<nat>,
                      prefix: string, rev: nat)
    requires Inv(w1) && Inv(w2) && Inv(w) && Later(w1, w2) && Later(w1, w) && !IsFill(prefix)
    requires received == Written(w.hist, lo, hi, lost) && lo <= w1.db.lastId
    ensures var caughtUp := AfterPrefix(w1.db.rows, prefix, rev, 0) != [];
            Delivered(w1, w2, received, prefix, rev)
            == Wanted(w.hist, prefix, rev, Max(hi, w1.db.lastId), Missed(w1, w2, w, caughtUp, lo, hi, lost))
  {
    hide Inv, Wanted, AfterPrefix, Newer, Matching, Written, MaxId, CompactRevision, Unkept;
    var h, a, b := w.hist, w1.db.lastId, w2.db.lastId;
    var top := Max(hi, a);
    var kvs := AfterPrefix(w1.db.rows, prefix, rev, 0);
    var gone := Missed(w1, w2, w, kvs != [], lo, hi, lost);
    MatchingWritten(h, prefix, lo, hi, lost);
    CatchUpIsKept(w1, w, prefix, rev);
    MaxIdIsNewest(w2);
    NewerWanted(h, prefix, lo, hi, lost, Covered(kvs, rev, b));
    if kvs == [] {
      NothingToCatchUp(w1, w2, w, lo, hi, lost, prefix, rev);
      var live := Newer(Matching(received, prefix), rev);
      assert [] + live == live;
    } else {
      if a < rev { WantedNothing(h, prefix, rev, a, Unkept(w1)); }
      WantedSplit(h, prefix, rev, a, top, gone);
      WantedSame(h, prefix, rev, a, gone, Unkept(w1));
      MiddleIsLeft(h, prefix, a, b, hi, top, gone, lost);
    }
  }

  lemma NothingToCatchUp(w1: World, w2: World, w: World, lo: nat, hi: nat, lost: set<nat>, prefix: string, rev: nat)
    requires lo <= w1.db.lastId
    ensures Wanted(w.hist, prefix, Max(lo, rev), hi, lost)
         == Wanted(w.hist, prefix, rev, Max(hi, w1.db.lastId), Missed(w1, w2, w, false, lo, hi, lost))
  {
    hide Wanted, Unkept;
    var gone := Missed(w1, w2, w, false, lo, hi, lost);
    MiddleIsLeft(w.hist, prefix, rev, Max(lo, rev), hi, Max(hi, w1.db.lastId), gone, lost);
  }

  /** Leaving ids out leaves everything wanted exactly if no matching one is among them. */
  lemma NothingMissed(h: Rows, prefix: string, lo: nat, hi: nat, gone: set<nat>)
    ensures Wanted(h, prefix, lo, hi, gone) == Wanted(h, prefix, lo, hi, {})
       <==> forall i :: i in h && Matches(h[i].name, prefix) && lo < i <= hi ==> i !in gone
  {
    hide Wanted, Matches;
    if Wanted(h, prefix, lo, hi, gone) == Wanted(h, prefix, lo, hi, {}) {
      forall i | i in h && Matches(h[i].name, prefix) && lo < i <= hi
        ensures i !in gone
      {
        WantedIs(h, prefix, lo, hi, {}, Scan(i, h[i]));
        WantedIs(h, prefix, lo, hi, gone, Scan(i, h[i]));
      }
    } else {
      if forall i :: i in h && Matches(h[i].name, prefix) && lo < i <= hi ==> i !in gone {
        MatchesKept(h, prefix, lo, hi, gone);
        assert false;
      }
    }
  }

  lemma MatchesKept(h: Rows, prefix: string, lo: nat, hi: nat, gone: set<nat>)
    requires forall i :: i in h && Matches(h[i].name, prefix) && lo < i <= hi ==> i !in gone
    ensures Wanted(h, prefix, lo, hi, gone) == Wanted(h, prefix, lo, hi, {})
  {
    OrderedAgree(MatchIds(h, prefix) - gone, MatchIds(h, prefix) - {}, lo, hi);
  }

  /** A watch from revision 0 or 1 is never refused. It delivers the whole matching history so far if and only if
    it misses none of it - with a catch-up, if nothing matching had been compacted, or was written
    between its two reads, or was lost by the stream. */
  lemma WatchIsComplete(w1: World, w2: World, w: World, received: seq<Event>, lo: nat, hi: nat, lost: set<nat>,
                        prefix: string, rev: nat)
    requires Inv(w1) && Inv(w2) && Inv(w) && Later(w1, w2) && Later(w1, w) && !IsFill(prefix)
    requires received == Written(w.hist, lo, hi, lost) && lo <= w1.db.lastId
    ensures var caughtUp, top := AfterPrefix(w1.db.rows, prefix, rev, 0) != [], Max(hi, w1.db.lastId);
            Delivered(w1, w2, received, prefix, rev) == Wanted(w.hist, prefix, rev, top, {})
            <==> forall i :: i in w.hist && Matches(w.hist[i].name, prefix) && rev < i <= top ==>
                   i !in Missed(w1, w2, w, caughtUp, lo, hi, lost)
  {
    hide Inv, Wanted, AfterPrefix, Delivered, Written, Missed, Matches;
    var caughtUp := AfterPrefix(w1.db.rows, prefix, rev, 0) != [];
    WatchDelivers(w1, w2, w, received, lo, hi, lost, prefix, rev);
    NothingMissed(w.hist, prefix, rev, Max(hi, w1.db.lastId), Missed(w1, w2, w, caughtUp, lo, hi, lost));
  }

  /** A list of the present (rows read in l1, revisions in l2) and a watch from there on make up the whole
    matching history if and only if no matching write fell between the list's two reads and none between
    the watch's. */
  lemma ListThenWatch(l1: World, l2: World, w1: World, w2: World, w: World, received: seq<Event>, lo: nat, hi: nat,
                      lost: set<nat>, prefix: string)
    requires Inv(l1) && Inv(l2) && Inv(w1) && Inv(w2) && Inv(w)
    requires Later(l1, l2) && Later(l2, w1) && Later(w1, w2) && Later(w1, w)
    requires received == Written(w.hist, lo, hi, lost) && lo <= w1.db.lastId
    requires w2.Compacted() <= l2.db.lastId
    ensures Delivered(w1, w2, received, prefix, l2.db.lastId)
            == Wanted(w.hist, prefix, l1.db.lastId, Max(hi, w1.db.lastId), Beyond(lost, w1.db.lastId))
       <==> Wanted(w.hist, prefix, l1.db.lastId, l2.db.lastId, {}) == []
            && (AfterPrefix(w1.db.rows, prefix, l2.db.lastId, 0) == []
                || Wanted(w.hist, prefix, w1.db.lastId, Min(w2.db.lastId, hi), lost) == [])
  {
    hide Inv, Wanted, AfterPrefix, Delivered, Written, CompactRevision;
    var a, b, top, out := l1.db.lastId, l2.db.lastId, Max(hi, w1.db.lastId), Beyond(lost, w1.db.lastId);
    WatchIsExact(w1, w2, w, received, lo, hi, lost, prefix, b);
    WantedSplit(w.hist, prefix, a, b, top, out);
    WantedAgree(w.hist, prefix, a, b, {}, out);
    var missed := Wanted(w.hist, prefix, a, b, out);
    if missed == [] {
      assert missed + Wanted(w.hist, prefix, b, top, out) == Wanted(w.hist, prefix, b, top, out);
    } else {
      var e := missed[0];
      assert e in missed && e in Wanted(w.hist, prefix, a, top, out);
      WantedIs(w.hist, prefix, a, b, out, e);
      if e in Delivered(w1, w2, received, prefix, b) { WindowIsLost(w1, w2, received, prefix, b, e); }
    }
  }
}
