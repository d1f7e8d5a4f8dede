/** Watches over whole runs: clients, compactors, the poller, the broadcaster and its subscribers
  interleave freely, and a batch waits in a pipe between the poller and the broadcaster. */
module Delivery {
  import opened Keys
  import opened Table
  import opened History
  import opened Runs
  import opened Queries
  import opened Poller
  import opened Stream
  import opened Watch
  import Hubs = Broadcaster

  type Batch = seq<Event>

  datatype Whole = Whole(sys: Sys, pipe: seq<Batch>, hub: Hubs.Hub<Batch>)

  datatype Move =
    | Log(step: SysStep)               // the database and the poller
    | Forward                          // the broadcaster publishes the oldest waiting batch
    | Client(act: Hubs.Act<Batch>)     // subscribers, and the end of the stream

  /** Compaction may pass the poller; the stream then misses the lost ids. */
  predicate CanMove(t: Whole, m: Move) {
    match m
    case Log(step) => CanStep(t.sys, step)
    case Forward => t.pipe != []
    case Client(act) => !act.Publish?
  }

  /** What the poller hands over in a step. */
  function Handed(s: Sys, step: SysStep): Batch
    requires CanStep(s, step)
  {
    if step.PassOn? then PassOver(s.phase.events, s.last, s.skip, step.elapsed).out else []
  }

  function Moved(t: Whole, m: Move): Whole
    requires CanMove(t, m) && t.hub.subs <= t.hub.chans.Keys
  {
    match m
    case Log(step) =>
      var out := Handed(t.sys, step);
      t.(sys := Next(t.sys, step), pipe := if out == [] then t.pipe else t.pipe + [out])
    case Forward => t.(pipe := t.pipe[1..], hub := Hubs.Published(t.hub, t.pipe[0]))
    case Client(act) => t.(hub := Hubs.Acted(t.hub, act))
  }

  ghost predicate WholeOk(t: Whole) {
    && SysInv(t.sys)
    && Hubs.HubOk(t.hub)
    && Flat(t.hub.published + t.pipe) == t.sys.log
  }

  lemma HandedIsLogged(s: Sys, step: SysStep)
    requires CanStep(s, step)
    ensures Next(s, step).log == s.log + Handed(s, step)
  {
    hide PassOver, Apply, Missing, After;
  }

  lemma LogKeepsOk(t: Whole, step: SysStep)
    requires WholeOk(t) && CanMove(t, Log(step))
    ensures WholeOk(Moved(t, Log(step)))
  {
    hide SysInv, Hubs.HubOk, Flat, Next, Handed, CanStep;
    NextKeepsInv(t.sys, step);
    HandedIsLogged(t.sys, step);
    var out := Handed(t.sys, step);
    FlatSnoc(t.hub.published + t.pipe, out);
    assert t.hub.published + (t.pipe + [out]) == t.hub.published + t.pipe + [out];
  }

  lemma ActKeepsPublished(h: Hubs.Hub<Batch>, act: Hubs.Act<Batch>)
    requires h.subs <= h.chans.Keys && !act.Publish?
    ensures Hubs.Acted(h, act).published == h.published
  {
  }

  lemma MoveKeepsOk(t: Whole, m: Move)
    requires WholeOk(t) && CanMove(t, m)
    ensures WholeOk(Moved(t, m))
  {
    hide SysInv, Hubs.HubOk, Flat, Next, Handed, CanStep, Hubs.Acted;
    match m
    case Log(step) => LogKeepsOk(t, step);
    case Forward =>
      Hubs.PublishKeepsOk(t.hub, t.pipe[0]);
      assert t.hub.published + [t.pipe[0]] + t.pipe[1..] == t.hub.published + t.pipe;
    case Client(act) =>
      Hubs.SubscribersAreOpen(t.hub);
      Hubs.ActKeepsOk(t.hub, act);
      ActKeepsPublished(t.hub, act);
  }

  // ---------------------------------------------------------------- every run

  predicate CanRunWhole(t: Whole, moves: seq<Move>)
    requires WholeOk(t)
    decreases |moves|
  {
    moves == [] || (CanMove(t, moves[0]) && (MoveKeepsOk(t, moves[0]); CanRunWhole(Moved(t, moves[0]), moves[1..])))
  }

  function RunWhole(t: Whole, moves: seq<Move>): (t': Whole)
    requires WholeOk(t) && CanRunWhole(t, moves)
    ensures WholeOk(t')
    decreases |moves|
  {
    if moves == [] then t else MoveKeepsOk(t, moves[0]); RunWhole(Moved(t, moves[0]), moves[1..])
  }

  /** t' is where the moves take t. */
  ghost predicate Reaches(t: Whole, moves: seq<Move>, t': Whole) {
    WholeOk(t) && CanRunWhole(t, moves) && RunWhole(t, moves) == t'
  }

  /** The watch machinery starts on a database: the poller at the compact revision, nobody subscribed. */
  function Begin(w: World): Whole {
    Whole(Start(w), [], Hubs.Quiet())
  }

  /** t' comes after t: the log and what was published have grown, and every subscription still
    begins where it began. */
  ghost predicate Grown(t: Whole, t': Whole) {
    && Later(t.sys.w, t'.sys.w)
    && t.sys.pollStart == t'.sys.pollStart
    && t.hub.published <= t'.hub.published
    && (forall c :: c in t.hub.chans ==> c in t'.hub.chans && t'.hub.chans[c].since == t.hub.chans[c].since)
  }

  lemma GrownTransitive(a: Whole, b: Whole, c: Whole)
    requires Grown(a, b) && Grown(b, c)
    ensures Grown(a, c)
  {
    hide Later;
    LaterTransitive(a.sys.w, b.sys.w, c.sys.w);
  }

  lemma HubGrows(h: Hubs.Hub<Batch>, act: Hubs.Act<Batch>, c: nat)
    requires Hubs.HubOk(h) && c in h.chans
    ensures c in Hubs.Acted(h, act).chans && Hubs.Acted(h, act).chans[c].since == h.chans[c].since
  {
  }

  lemma LogIsLater(s: Sys, step: SysStep)
    requires SysInv(s) && CanStep(s, step)
    ensures Later(s.w, Next(s, step).w) && Next(s, step).pollStart == s.pollStart
  {
    hide Inv, Later, PassOver, After, Missing, Apply, Written, LostOk;
    LaterReflexive(s.w);
    match step {
      case Db(dbStep) => ApplyIsLater(s.w, dbStep);
      case FillGap(ok) => ApplyIsLater(s.w, Fill(s.phase.id));
      case _ =>
    }
  }

  lemma MoveGrows(t: Whole, m: Move)
    requires WholeOk(t) && CanMove(t, m)
    ensures Grown(t, Moved(t, m))
  {
    hide SysInv, Hubs.HubOk, Flat, Next, Handed, CanStep, Hubs.Acted, Hubs.Published, Later;
    Hubs.SubscribersAreOpen(t.hub);
    LaterReflexive(t.sys.w);
    match m {
      case Log(step) => LogIsLater(t.sys, step);
      case Forward => PublishGrows(t.hub, t.pipe[0]);
      case Client(act) =>
        ActKeepsPublished(t.hub, act);
        forall c | c in t.hub.chans
          ensures c in Hubs.Acted(t.hub, act).chans && Hubs.Acted(t.hub, act).chans[c].since == t.hub.chans[c].since
        {
          HubGrows(t.hub, act, c);
        }
    }
  }

  lemma PublishGrows(h: Hubs.Hub<Batch>, batch: Batch)
    requires h.subs <= h.chans.Keys
    ensures var h' := Hubs.Published(h, batch);
            && h.published <= h'.published
            && (forall c :: c in h.chans ==> c in h'.chans && h'.chans[c].since == h.chans[c].since)
  {
  }

  lemma {:induction false} RunGrows(t: Whole, moves: seq<Move>)
    requires WholeOk(t) && CanRunWhole(t, moves)
    ensures WholeOk(RunWhole(t, moves)) && Grown(t, RunWhole(t, moves))
    decreases |moves|
  {
    hide WholeOk, Grown, CanMove, Moved;
    HubIsOk(t);
    if moves == [] {
      GrownReflexive(t);
    } else {
      var t1 := Moved(t, moves[0]);
      MoveKeepsOk(t, moves[0]);
      MoveGrows(t, moves[0]);
      RunGrows(t1, moves[1..]);
      GrownTransitive(t, t1, RunWhole(t1, moves[1..]));
    }
  }

  lemma HubIsOk(t: Whole)
    requires WholeOk(t)
    ensures t.hub.subs <= t.hub.chans.Keys
  {
  }

  lemma GrownReflexive(t: Whole)
    ensures Grown(t, t)
  {
  }

  lemma ReachesNext(t: Whole, m: Move)
    requires WholeOk(t) && CanMove(t, m)
    ensures t.hub.subs <= t.hub.chans.Keys && Reaches(t, [m], Moved(t, m))
  {
    hide CanMove, Moved, WholeOk;
    HubIsOk(t);
    MoveKeepsOk(t, m);
    var rest := [m][1..];
    assert rest == [];
    assert CanRunWhole(Moved(t, m), rest) && RunWhole(Moved(t, m), rest) == Moved(t, m);
  }

  lemma {:induction false} ReachesThen(a: Whole, first: seq<Move>, b: Whole, second: seq<Move>, c: Whole)
    requires Reaches(a, first, b) && Reaches(b, second, c)
    ensures Reaches(a, first + second, c)
    decreases |first|
  {
    hide CanMove, Moved, WholeOk;
    if first == [] {
      assert first + second == second;
    } else {
      HubIsOk(a);
      MoveKeepsOk(a, first[0]);
      ReachesThen(Moved(a, first[0]), first[1..], b, second, c);
      assert (first + second)[1..] == first[1..] + second;
    }
  }

  lemma BeginIsOk(w: World)
    requires Inv(w)
    ensures WholeOk(Begin(w))
  {
    hide SysInv, Inv;
    StartInv(w);
    Hubs.QuietIsOk<Batch>();
    var none: seq<Batch> := [];
    assert none + none == none;
  }

  // ---------------------------------------------------------------- what a subscriber gets

  /** The revision a run of events reaches. */
  function EndOf(events: seq<Event>, start: nat): nat {
    if events == [] then start else events[|events| - 1].kv.modRevision
  }

  /** Every part of the log is the history up to where that part ends, less the lost ids. */
  lemma PrefixIsWritten(h: Rows, a: seq<Event>, b: seq<Event>, lo: nat, hi: nat, lost: set<nat>)
    requires a + b == Written(h, lo, hi, lost) && lo <= hi
    ensures lo <= EndOf(a, lo) <= hi
    ensures a == Written(h, lo, EndOf(a, lo), lost)
  {
    hide OrderedBetween;
    var ids := OrderedBetween(h.Keys - lost, lo, hi);
    var k := |a|;
    assert |ids| == |a + b|;
    if k > 0 {
      OrderedPrefix(h.Keys - lost, lo, hi, k);
      assert ids[k - 1] in ids;
      assert (a + b)[k - 1] == Scan(ids[k - 1], h[ids[k - 1]]);
      assert a == (a + b)[..k];
    } else {
      OrderedNothing(h.Keys - lost, lo);
    }
  }

  lemma PublishedIsWritten(t: Whole, k: nat)
    requires WholeOk(t) && k <= |t.hub.published|
    ensures t.sys.pollStart <= Reach(t, k) <= t.sys.last <= t.sys.w.db.lastId
    ensures Flat(t.hub.published[..k]) == Written(t.sys.w.hist, t.sys.pollStart, Reach(t, k), t.sys.lost)
  {
    hide Inv, Written, Flat, Hubs.HubOk, PhaseOk, LostOk, EndOf;
    var all := t.hub.published + t.pipe;
    assert all == all[..k] + all[k..] && all[..k] == t.hub.published[..k];
    FlatAppend(all[..k], all[k..]);
    PrefixIsWritten(t.sys.w.hist, Flat(all[..k]), Flat(all[k..]), t.sys.pollStart, t.sys.last, t.sys.lost);
  }

  /** The revision that the first k publications reach. */
  function Reach(t: Whole, k: nat): nat
    requires k <= |t.hub.published|
  {
    EndOf(Flat(t.hub.published[..k]), t.sys.pollStart)
  }

  lemma ChannelHolds(h: Hubs.Hub<Batch>, c: nat)
    requires Hubs.HubOk(h) && c in h.chans
    ensures var ch := h.chans[c];
            && ch.since + |ch.received| <= |h.published|
            && h.published[..ch.since + |ch.received|] == h.published[..ch.since] + ch.received
  {
    var ch := h.chans[c];
    assert Hubs.ChanOk(ch, c in h.subs, h.published);
    assert ch.received == ch.Got()[..|ch.received|];
  }

  lemma WrittenAscends(h: Rows, lo: nat, hi: nat, lost: set<nat>)
    ensures RevisionsAscend(Written(h, lo, hi, lost))
  {
  }

  /** What a subscriber has received is the history between two positions, in ascending order, less
    the lost ids. */
  lemma ReceivedIsWritten(t: Whole, c: nat)
    requires WholeOk(t) && c in t.hub.chans
    ensures var ch := t.hub.chans[c];
            && ch.since + |ch.received| <= |t.hub.published|
            && Flat(ch.received)
               == Written(t.sys.w.hist, Reach(t, ch.since), Reach(t, ch.since + |ch.received|), t.sys.lost)
            && RevisionsAscend(Flat(ch.received))
  {
    hide RevisionsAscend, Written, Flat, Hubs.HubOk, SysInv, EndOf;
    ChannelHolds(t.hub, c);
    var ch := t.hub.chans[c];
    var n, lost := ch.since + |ch.received|, t.sys.lost;
    PublishedIsWritten(t, ch.since);
    PublishedIsWritten(t, n);
    var first, all := Flat(t.hub.published[..ch.since]), Flat(t.hub.published[..n]);
    FlatAppend(t.hub.published[..ch.since], ch.received);
    PrefixIsWritten(t.sys.w.hist, first, Flat(ch.received), t.sys.pollStart, Reach(t, n), lost);
    WrittenSplit(t.sys.w.hist, t.sys.pollStart, Reach(t, ch.since), Reach(t, n), lost);
    var rest := Written(t.sys.w.hist, Reach(t, ch.since), Reach(t, n), lost);
    assert (first + Flat(ch.received))[|first|..] == Flat(ch.received);
    assert (first + rest)[|first|..] == rest;
    WrittenAscends(t.sys.w.hist, Reach(t, ch.since), Reach(t, n), lost);
  }

  /** How far what a subscriber has received reaches. */
  function ReceivedTo(t: Whole, c: nat): nat
    requires WholeOk(t) && c in t.hub.chans
  {
    ChannelHolds(t.hub, c);
    Reach(t, t.hub.chans[c].since + |t.hub.chans[c].received|)
  }

  lemma WatchBetween(a: Whole, b: Whole, t: Whole, c: nat, prefix: string, rev: nat)
    requires WholeOk(a) && WholeOk(b) && WholeOk(t) && Grown(a, b) && Grown(b, t)
    requires c in a.hub.chans && b.sys.w.Compacted() <= rev
    ensures c in t.hub.chans
    ensures var h, asked, lost, upTo := t.sys.w.hist, a.sys.w.db.lastId, t.sys.lost, ReceivedTo(t, c);
            Delivered(a.sys.w, b.sys.w, Flat(t.hub.chans[c].received), prefix, rev)
            == Wanted(h, prefix, rev, Max(upTo, asked), Beyond(lost, asked))
            <==> AfterPrefix(a.sys.w.db.rows, prefix, rev, 0) == []
                 || Wanted(h, prefix, asked, Min(b.sys.w.db.lastId, upTo), lost) == []
  {
    hide WholeOk, Wanted, AfterPrefix, Delivered, Flat, Written, Inv, Later, CompactRevision, RevisionsAscend, Reach,
         Max, Min, Beyond;
    GrownTransitive(a, b, t);
    ReceivedIsWritten(t, c);
    SubscribedBefore(a, t, c);
    WholeFacts(a);
    WholeFacts(b);
    WholeFacts(t);
    var ch := t.hub.chans[c];
    WatchIsExact(a.sys.w, b.sys.w, t.sys.w, Flat(ch.received), Reach(t, ch.since), Reach(t, ch.since + |ch.received|),
                 t.sys.lost, prefix, rev);
  }

  /** Over every run, what any watcher has delivered, refused or not and from whatever revision: the matching
    events up to where its receptions reach that it does not miss. */
  lemma AnyWatchOverRuns(before: seq<Step>, joining: seq<Move>, asking: seq<Move>, more: seq<Move>,
                         a: Whole, b: Whole, t: Whole, c: nat, prefix: string, rev: nat)
    requires ValidRun(INIT, before) && Reaches(Begin(Run(INIT, before)), joining, a)
    requires Reaches(a, asking, b) && Reaches(b, more, t)
    requires c in a.hub.chans && !IsFill(prefix)
    ensures WholeOk(t) && c in t.hub.chans && t.hub.chans[c].since <= |t.hub.published|
    ensures var upTo, since := ReceivedTo(t, c), Reach(t, t.hub.chans[c].since);
            var caughtUp := AfterPrefix(a.sys.w.db.rows, prefix, rev, 0) != [];
            Delivered(a.sys.w, b.sys.w, Flat(t.hub.chans[c].received), prefix, rev)
            == Wanted(t.sys.w.hist, prefix, rev, Max(upTo, a.sys.w.db.lastId),
                      Missed(a.sys.w, b.sys.w, t.sys.w, caughtUp, since, upTo, t.sys.lost))
  {
    hide WholeOk, Wanted, AfterPrefix, Delivered, Flat, Inv, Later, CanRunWhole, RunWhole, CompactRevision, Missed,
         Written,
         RevisionsAscend, Reach, Max;
    RunGrows(a, asking);
    RunGrows(b, more);
    GrownTransitive(a, b, t);
    ReceivedIsWritten(t, c);
    SubscribedBefore(a, t, c);
    WholeFacts(a);
    WholeFacts(b);
    WholeFacts(t);
    var ch := t.hub.chans[c];
    WatchDelivers(a.sys.w, b.sys.w, t.sys.w, Flat(ch.received), Reach(t, ch.since), Reach(t, ch.since + |ch.received|),
                  t.sys.lost, prefix, rev);
  }

  lemma WholeFacts(t: Whole)
    requires WholeOk(t)
    ensures Inv(t.sys.w)
  {
  }

  /** A subscription made before the rows were read begins at or below them. */
  lemma SubscribedBefore(a: Whole, t: Whole, c: nat)
    requires WholeOk(a) && Grown(a, t) && c in a.hub.chans
    ensures c in t.hub.chans && t.hub.chans[c].since <= |t.hub.published|
    ensures Reach(t, t.hub.chans[c].since) <= a.sys.w.db.lastId
  {
    hide SysInv, Hubs.HubOk, Flat, Written, Later;
    var k := a.hub.chans[c].since;
    ChannelHolds(a.hub, c);
    PublishedIsWritten(a, k);
    assert t.hub.published[..k] == a.hub.published[..k];
  }

  /** Over every run from an empty database, the watch machinery starting at any point of it: a watcher
    that had subscribed (channel c) when it read the rows in a, read the revisions in b and was not
    refused, has delivered at any later t, evicted or not, exactly the wanted events up to where its
    receptions reach - later ones that compaction took before the poller came by excepted - if and only
    if it had nothing to catch up or no wanted write fell between its two reads. */
  lemma WatchOverRuns(before: seq<Step>, joining: seq<Move>, asking: seq<Move>, more: seq<Move>,
                      a: Whole, b: Whole, t: Whole, c: nat, prefix: string, rev: nat)
    requires ValidRun(INIT, before) && Reaches(Begin(Run(INIT, before)), joining, a)
    requires Reaches(a, asking, b) && Reaches(b, more, t)
    requires c in a.hub.chans && b.sys.w.Compacted() <= rev
    ensures WholeOk(t) && c in t.hub.chans
    ensures var h, asked, lost, upTo := t.sys.w.hist, a.sys.w.db.lastId, t.sys.lost, ReceivedTo(t, c);
            Delivered(a.sys.w, b.sys.w, Flat(t.hub.chans[c].received), prefix, rev)
            == Wanted(h, prefix, rev, Max(upTo, asked), Beyond(lost, asked))
            <==> AfterPrefix(a.sys.w.db.rows, prefix, rev, 0) == []
                 || Wanted(h, prefix, asked, Min(b.sys.w.db.lastId, upTo), lost) == []
  {
    hide WholeOk, Wanted, AfterPrefix, Delivered, Flat, Inv, Grown, CanRunWhole, RunWhole, CompactRevision, Beyond;
    RunGrows(a, asking);
    RunGrows(b, more);
    WatchBetween(a, b, t, c, prefix, rev);
  }

  /** The machinery does start well: every reachable database is fit for it. */
  lemma BeginReachable(before: seq<Step>)
    requires ValidRun(INIT, before)
    ensures WholeOk(Begin(Run(INIT, before)))
  {
    ReachableInv(before);
    BeginIsOk(Run(INIT, before));
  }
}
