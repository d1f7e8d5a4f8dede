/** Runs from an empty database on which the store falls short of etcd: that the conditions found
  elsewhere can fail. */
module Witnesses {
  import opened Keys
  import opened Table
  import opened History
  import opened Runs
  import opened Snapshots
  import opened Queries
  import opened Poller
  import opened Progress
  import opened Stream
  import opened Watch
  import opened Delivery
  import opened Listing
  import opened Pagination
  import opened Cas
  import opened Backend
  import opened Ranges
  import opened Txns
  import Hubs = Broadcaster

  const X: string := "/a/x"
  const Y: string := "/a/y"
  const B: string := "/b"
  const DIR: string := "/a/"

  function Make(key: string): Step {
    History.Create(key, Some("v"), 0)
  }

  lemma KeysAreClients()
    ensures ClientKey(X) && ClientKey(Y) && ClientKey(B) && ClientKey(DIR)
    ensures X != Y && X != B && Y != B && X != DIR
    ensures Y != DIR && DIR <= X && DIR <= Y && EndsWithSlash(DIR) && !EndsWithSlash(X)
  {
    assert X[0] == '/' && Y[0] == '/' && B[0] == '/' && DIR[0] == '/';
    assert COMPACT_KEY[0] == 'c' && FILL_PREFIX[0] == 'g';
    assert X[3] == 'x' && Y[3] == 'y';
  }

  /** Creating a key that was never there. */
  lemma Made(w: World, key: string)
    requires Inv(w) && ClientKey(key) && Current(w, key).None?
    ensures var w', n := Apply(w, Make(key)), w.db.lastId + 1;
            && Inv(w') && Later(w, w') && Enabled(w, Make(key))
            && w'.db.lastId == n && w'.Compacted() == w.Compacted()
            && n in w'.hist && w'.hist[n].name == key && w'.hist[n].value == Some("v") && !w'.hist[n].deleted
            && Current(w', key) == Some(KeyValue(key, n, n, Some("v"), 0))
            && (forall other :: other != key ==> Current(w', other) == Current(w, other))
  {
    hide Inv, Later, Current, CompactRevision;
    ApplyIsLater(w, Make(key));
    StepOutcome(w, Make(key));
    CreateIsCas(w, key, Some("v"), 0);
  }

  lemma NothingYet(key: string)
    ensures Current(INIT, key).None?
  {
  }

  // ---------------------------------------------------------------- pages

  /** A directory key that is itself a key, and one below it: the first page of one entry counts one too few, and
    the request for the second page is answered with the first again. */
  lemma PageStalls() returns (w: World)
    ensures ValidRun(INIT, [Make(DIR), Make(X)]) && w == Run(INIT, [Make(DIR), Make(X)])
    ensures |FullListing(w.db.rows, DIR, 2)| > 1 && VisibleAt(w.db.rows, DIR, 2).Some?
    ensures var first := PageOf(w.db.rows, DIR, DIR, 1, 2);
            && first.more && first.events[0].kv.key == DIR
            && PageOf(w.db.rows, DIR, first.events[0].kv.key, 1, 2) == first
            && first.count == |FullListing(w.db.rows, DIR, 2)| - 1
  {
    hide Inv, Later, VisibleAt, Apply, PageOf, FullListing;
    KeysAreClients();
    InitInv();
    NothingYet(DIR);
    NothingYet(X);
    Made(INIT, DIR);
    var w1 := Apply(INIT, Make(DIR));
    Made(w1, X);
    w := Apply(w1, Make(X));
    TwoSteps(INIT, Make(DIR), Make(X));
    CurrentIsVisible(w, DIR);
    CurrentIsVisible(w, X);
    BothListed(w.db.rows, DIR, DIR, X, 2);
    SingleEntryPagesStall(w.db.rows, DIR, 1, 2);
    TableNamesNulFree(w);
    assert StartAt(FullListing(w.db.rows, DIR, 2), DIR, 0) == DIR;
    PageIsSlice(w.db.rows, DIR, 0, 1, 2);
  }

  lemma TwoSteps(w: World, s: Step, s': Step)
    ensures Run(w, [s, s']) == Apply(Apply(w, s), s')
    ensures ValidRun(w, [s, s']) <==> Enabled(w, s) && Enabled(Apply(w, s), s')
  {
    hide Apply, Enabled;
    assert [s, s'] == [s] + [s'];
    assert [s'] == [s'] + [];
    RunFirst(w, s, [s']);
    RunFirst(Apply(w, s), s', []);
    NothingRun(Apply(Apply(w, s), s'));
  }

  lemma CurrentIsVisible(w: World, key: string)
    requires Inv(w) && Current(w, key).Some?
    ensures VisibleAt(w.db.rows, key, w.db.lastId).Some? && key in Names(w.db.rows)
  {
    hide VisibleAt;
    MaxIdIsNewest(w);
    VisibleFromCompacted(w, key, w.db.lastId);
    VisibleIsNamed(w.db.rows, key, w.db.lastId);
  }

  const A: string := "/a/a"

  lemma AComesFirst()
    ensures ClientKey(A) && A != X && A != Y && DIR <= A && Less(A, X) && Less(A, Y)
  {
    assert A[0] == '/' && A[3] == 'a' && X[3] == 'x' && Y[3] == 'y';
    assert Less(A[3..], X[3..]) && Less(A[3..], Y[3..]);
    assert A[2..][1..] == A[3..] && X[2..][1..] == X[3..] && Y[2..][1..] == Y[3..];
    assert A[1..][1..] == A[2..] && X[1..][1..] == X[2..] && Y[1..][1..] == Y[2..];
  }

  lemma TwoMade() returns (w: World)
    ensures ValidRun(INIT, [Make(X), Make(Y)]) && w == Run(INIT, [Make(X), Make(Y)])
    ensures Inv(w) && w.db.lastId == 2 && w.Compacted() == 0
    ensures Current(w, X).Some? && Current(w, Y).Some? && Current(w, A).None?
  {
    hide Inv, Later, Apply, Current, CompactRevision;
    KeysAreClients();
    AComesFirst();
    InitInv();
    InitCompacted();
    NothingYet(X);
    NothingYet(Y);
    NothingYet(A);
    Made(INIT, X);
    var w1 := Apply(INIT, Make(X));
    Made(w1, Y);
    w := Apply(w1, Make(Y));
    TwoSteps(INIT, Make(X), Make(Y));
  }

  /** A key created before the last of a first page of the present, while that page is being counted: the pages do not
    make up the listing at the revision they are read at. */
  lemma PresentPagesMiss() returns (w: World, counted: World)
    ensures ValidRun(INIT, [Make(X), Make(Y)]) && w == Run(INIT, [Make(X), Make(Y)])
    ensures Enabled(w, Make(A)) && counted == Apply(w, Make(A)) && |FullListing(w.db.rows, DIR, 2)| > 1
    ensures var first := FullListing(w.db.rows, DIR, 2)[..1];
            first + ListRevision(counted.db.rows, DIR, EffectiveStart(DIR, first[0].kv.key), 0, 3)
            != FullListing(counted.hist, DIR, 3)
  {
    hide Inv, Later, VisibleAt, Apply, FullListing, ListRevision, Less, EffectiveStart, CompactRevision, Run, ValidRun,
         Enabled;
    KeysAreClients();
    AComesFirst();
    w := TwoMade();
    Made(w, A);
    counted := Apply(w, Make(A));
    CurrentIsVisible(w, X);
    CurrentIsVisible(w, Y);
    BothListed(w.db.rows, DIR, X, Y, 2);
    OnlyThese(w);
    ListedIsCurrent(w, DIR, 0);
    PagesDiffer(w, counted);
  }

  lemma PagesDiffer(w: World, counted: World)
    requires Inv(w) && Inv(counted) && Later(w, counted) && counted.Compacted() == 0
    requires w.db.lastId == 2 && counted.db.lastId == 3 && |FullListing(w.db.rows, DIR, 2)| > 1
    requires FullListing(w.db.rows, DIR, 2)[0].kv.key in {X, Y}
    requires Current(w, A).None? && Current(counted, A).Some?
    ensures var first := FullListing(w.db.rows, DIR, 2)[..1];
            first + ListRevision(counted.db.rows, DIR, EffectiveStart(DIR, first[0].kv.key), 0, 3)
            != FullListing(counted.hist, DIR, 3)
  {
    hide Inv, Later, VisibleAt, FullListing, ListRevision, Less, EffectiveStart, CompactRevision;
    KeysAreClients();
    AComesFirst();
    LaterReflexive(counted);
    PagesFromPresent(w, counted, counted, DIR, 1);
    StillAbsent(w, counted, A);
    CurrentIsHeld(counted, A);
  }

  lemma BothListed(rows: Rows, dir: string, a: string, b: string, r: nat)
    requires EndsWithSlash(dir) && dir <= a && dir <= b && a != b
    requires VisibleAt(rows, a, r).Some? && VisibleAt(rows, b, r).Some?
    ensures |FullListing(rows, dir, r)| > 1
  {
    hide VisibleAt, SortNames;
    var (start, end) := GetPrefixRange(dir);
    var shown := Shown(rows, start, end, r);
    var stem := dir[..|dir| - 1];
    assert dir == stem + "/";
    SlashRangeExact(stem, a);
    SlashRangeExact(stem, b);
    VisibleIsNamed(rows, a, r);
    VisibleIsNamed(rows, b, r);
    assert {a, b} <= shown;
    SubsetSize({a, b}, shown);
    SortNamesSorts(shown);
  }

  /** Two creates make two keys. */
  lemma OnlyThese(w: World)
    requires w == Run(INIT, [Make(X), Make(Y)])
    ensures forall key :: Current(w, key).Some? ==> key == X || key == Y
  {
    hide Inv, Later, Current, Apply;
    KeysAreClients();
    InitInv();
    NothingYet(X);
    NothingYet(Y);
    Made(INIT, X);
    Made(Apply(INIT, Make(X)), Y);
    TwoSteps(INIT, Make(X), Make(Y));
    forall key | Current(w, key).Some? ensures key == X || key == Y { NothingYet(key); }
  }

  lemma ListedIsCurrent(w: World, prefix: string, k: nat)
    requires Inv(w) && k < |FullListing(w.db.rows, prefix, w.db.lastId)|
    ensures Current(w, FullListing(w.db.rows, prefix, w.db.lastId)[k].kv.key).Some?
  {
    hide Inv, VisibleAt, FullListing;
    ListedAreVisible(w.db.rows, prefix, w.db.lastId, k);
    MaxIdIsNewest(w);
    VisibleFromCompacted(w, FullListing(w.db.rows, prefix, w.db.lastId)[k].kv.key, w.db.lastId);
  }

  lemma StillAbsent(w: World, w': World, key: string)
    requires Inv(w) && Inv(w') && Later(w, w') && Current(w, key).None?
    ensures VisibleAt(w'.hist, key, w.db.lastId).None?
  {
    hide Inv, VisibleAt, Later;
    VisibleIsStable(w, w', key, w.db.lastId);
  }

  // ---------------------------------------------------------------- transactions

  function At(key: string, rev: nat): Compare {
    Compare(Mod, Equal, key, rev)
  }

  function Ask(key: string): Op {
    Range(RangeRequest(key, "", 0, 0, false, false))
  }

  function PutOf(key: string, value: Blob): Op {
    Put(key, value, 0, false, false, false)
  }

  lemma OneKeyMade() returns (w: World)
    ensures ValidRun(INIT, [Make(X)]) && w == Run(INIT, [Make(X)])
    ensures Inv(w) && w.db.lastId == 1 && Current(w, X) == Some(KeyValue(X, 1, 1, Some("v"), 0)) && Current(w, Y).None?
  {
    hide Inv, Later, Current, Apply;
    KeysAreClients();
    InitInv();
    NothingYet(X);
    NothingYet(Y);
    Made(INIT, X);
    w := Apply(INIT, Make(X));
    RunFirst(INIT, Make(X), []);
    NothingRun(w);
    assert [Make(X)] + [] == [Make(X)];
  }

  /** Deleting an absent key on the condition that it is absent fails, and etcd lets it succeed. */
  lemma AbsentDeleteDiffers()
    ensures var txn := TxnRequest([At(X, 0)], [DeleteRange(X, "", false)], [Ask(X)]);
            && IsWrite(txn) && Swaps(INIT, INIT, txn) && !Passes(INIT, txn)
            && !EtcdState(INIT, INIT, txn, false) && EtcdState(INIT, INIT, txn, true)
  {
    hide Inv, Current, WellFormed;
    var txn := TxnRequest([At(X, 0)], [DeleteRange(X, "", false)], [Ask(X)]);
    KeysAreClients();
    InitInv();
    NothingYet(X);
    AbsentIsZero(INIT, X);
    LiveInIs(INIT, X, "");
    assert LiveIn(INIT, X, "", 0) == {};
    assert WellFormed(txn.success[0]) && WellFormed(txn.failure[0]) by { WellFormedWitness(); }
    OneKeyIsEtcd(INIT, INIT, txn, X);
  }

  lemma WellFormedWitness()
    ensures WellFormed(DeleteRange(X, "", false)) && WellFormed(Ask(X))
  {
  }

  /** A create whose comparison names a key that is there, and whose put names one that is not, goes through,
    and etcd refuses it. */
  lemma OtherKeyCreateDiffers() returns (w: World)
    ensures ValidRun(INIT, [Make(X)]) && w == Run(INIT, [Make(X)])
    ensures var txn := TxnRequest([At(X, 0)], [PutOf(Y, Some("w"))], []);
            var w' := Apply(w, StepOf(txn));
            && IsWrite(txn) && Swaps(w, w', txn) && Passes(w, txn) && !Holds(w, txn) && !EtcdState(w, w', txn, true)
  {
    hide Inv, Current, WellFormed, Apply, Swaps, EtcdState;
    w := OneKeyMade();
    KeysAreClients();
    AbsentIsZero(w, X);
    AbsentIsZero(w, Y);
    var txn := TxnRequest([At(X, 0)], [PutOf(Y, Some("w"))], []);
    StepSwaps(w, txn);
    StateIsEtcd(w, Apply(w, StepOf(txn)), txn);
  }

  /** An update that asks to keep the value replaces it, and an update whose put names another key than the
    comparison writes the compared key: neither leaves etcd's state. */
  lemma FlaggedUpdateDiffers() returns (w: World)
    ensures ValidRun(INIT, [Make(X)]) && w == Run(INIT, [Make(X)])
    ensures forall put :: put in {Put(X, None, 0, false, true, false), PutOf(Y, Some("w"))} ==>
              var txn := TxnRequest([At(X, 1)], [put], [Ask(X)]);
              var w' := Apply(w, StepOf(txn));
              && IsWrite(txn) && Swaps(w, w', txn) && Passes(w, txn)
              && Current(w', X).Some? && Current(w', X).value.value == put.value
              && !EtcdState(w, w', txn, true)
  {
    hide Inv, Current, WellFormed, Apply, EtcdState;
    w := OneKeyMade();
    KeysAreClients();
    AbsentIsZero(w, X);
    forall put | put in {Put(X, None, 0, false, true, false), PutOf(Y, Some("w"))}
      ensures var txn := TxnRequest([At(X, 1)], [put], [Ask(X)]);
              var w' := Apply(w, StepOf(txn));
              && IsWrite(txn) && Swaps(w, w', txn) && Passes(w, txn)
              && Current(w', X).Some? && Current(w', X).value.value == put.value
              && !EtcdState(w, w', txn, true)
    {
      var txn := TxnRequest([At(X, 1)], [put], [Ask(X)]);
      StepSwaps(w, txn);
      StateIsEtcd(w, Apply(w, StepOf(txn)), txn);
    }
  }

  /** A delete that succeeds does not say that it deleted one key, and an update that fails on a key that is
    there does not count it. */
  lemma AnswersOweNumbers() returns (w: World)
    ensures ValidRun(INIT, [Make(X)]) && w == Run(INIT, [Make(X)])
    ensures var txn := TxnRequest([At(X, 1)], [DeleteRange(X, "", false)], [Ask(X)]);
            && IsWrite(txn) && Passes(w, txn) && Accepts(w, txn)
            && Answer(w, w, 1, txn).responses == [DeleteDone(2, 0, [])] != EtcdResponses(w, txn)
    ensures var txn := TxnRequest([At(X, 0)], [PutOf(X, Some("w"))], [Ask(X)]);
            && IsWrite(txn) && !Passes(w, txn) && Accepts(w, txn)
            && Answer(w, w, 1, txn).responses == [RangeDone(1, [KeyValue(X, 1, 1, Some("v"), 0)], false, 0)]
            && Answer(w, w, 1, txn).responses != EtcdResponses(w, txn)
  {
    hide Inv, Current, Apply, Txns.Fetched, LiveIn, EtcdRange, FoundEvents;
    w := OneKeyMade();
    KeysAreClients();
    AbsentIsZero(w, X);
    FetchedIsCurrent(w, X);
    var deletes := TxnRequest([At(X, 1)], [DeleteRange(X, "", false)], [Ask(X)]);
    var updates := TxnRequest([At(X, 0)], [PutOf(X, Some("w"))], [Ask(X)]);
    ResponsesAgree(w, w, 1, deletes);
    ResponsesAgree(w, w, 1, updates);
  }

  lemma FetchedIsCurrent(w: World, key: string)
    requires Inv(w) && !EndsWithSlash(key) && Current(w, key).Some?
    ensures Txns.Fetched(w, key) == [Current(w, key).value]
  {
    hide Inv, VisibleAt, FirstOf;
    HistoryNamesNulFree(w);
    FirstIsVisible(w.hist, key, w.db.lastId);
    CurrentIsHeld(w, key);
  }

  /** An absent directory with a key below it: a get of it is answered with that key, and so is the read-back of an
    update of it that fails; etcd finds nothing. */
  lemma DirectoryIsAnswered() returns (w: World)
    ensures ValidRun(INIT, [Make(X)]) && w == Run(INIT, [Make(X)]) && Current(w, DIR).None?
    ensures GetAnswer(w, [[], []], RangeRequest(DIR, "", 0, 0, false, false)).kvs != []
    ensures var txn := TxnRequest([At(DIR, 5)], [PutOf(DIR, Some("w"))], [Ask(DIR)]);
            && IsWrite(txn) && About(txn, DIR) && Accepts(w, txn) && !Passes(w, txn)
            && Answer(w, w, 1, txn).responses[0].kvs != EtcdRange(w, Ask(DIR).request).kvs
  {
    hide Inv, Current, Apply, Txns.Fetched, LiveIn, EtcdRange, FullListing, GetAnswer, VisibleAt;
    w := OneKeyMade();
    KeysAreClients();
    OthersAbsent(w);
    AbsentIsZero(w, DIR);
    CurrentIsHeld(w, DIR);
    SomethingListed(w, X);
    MaxIdIsNewest(w);
    SameListingAbove(w, DIR, 1) by { ItselfLater(w); }
    GetIsExact(w, [[], []], RangeRequest(DIR, "", 0, 0, false, false));
    var txn := TxnRequest([At(DIR, 5)], [PutOf(DIR, Some("w"))], [Ask(DIR)]);
    OwnEntries(w, DIR, Ask(DIR).request);
    ReadBackIsEtcd(w, w, 1, txn);
  }

  lemma OthersAbsent(w: World)
    requires w == Run(INIT, [Make(X)])
    ensures Current(w, DIR).None?
  {
    hide Inv, Later, Current, Apply;
    KeysAreClients();
    InitInv();
    NothingYet(X);
    NothingYet(DIR);
    Made(INIT, X);
    RunFirst(INIT, Make(X), []);
    NothingRun(Apply(INIT, Make(X)));
    assert [Make(X)] + [] == [Make(X)];
  }

  lemma SomethingListed(w: World, key: string)
    requires Inv(w) && Current(w, key).Some? && DIR <= key
    ensures FullListing(w.db.rows, DIR, w.db.lastId) != []
  {
    hide VisibleAt, SortNames, Current;
    CurrentIsVisible(w, key);
    var (start, end) := GetPrefixRange(DIR);
    assert DIR == "/a" + "/";
    SlashRangeExact("/a", key);
    assert start == DIR && end == "/a" + "0";
    assert key in Shown(w.db.rows, start, end, w.db.lastId);
    assert key in SortNames(Shown(w.db.rows, start, end, w.db.lastId));
  }

  /** A failing update whose failure branch asks for another key reads back its own. */
  lemma OtherKeyIsReadBack() returns (w: World)
    ensures ValidRun(INIT, [Make(X)]) && w == Run(INIT, [Make(X)])
    ensures var txn := TxnRequest([At(X, 0)], [PutOf(X, Some("w"))], [Ask(Y)]);
            && IsWrite(txn) && Accepts(w, txn) && !Passes(w, txn)
            && Answer(w, w, 1, txn).responses[0].kvs == [KeyValue(X, 1, 1, Some("v"), 0)]
            && EtcdRange(w, Ask(Y).request).kvs == []
  {
    hide Inv, Current, Apply, Txns.Fetched, LiveIn, FoundEvents, SortNames;
    w := OneKeyMade();
    KeysAreClients();
    AbsentIsZero(w, X);
    FetchedIsCurrent(w, X);
    LiveInIs(w, Y, "");
    assert LiveIn(w, Y, "", w.db.lastId) == {};
    SortNamesEmpty();
    FoundIs(w, Ask(Y).request);
  }

  // ---------------------------------------------------------------- lists of the present

  lemma OneEntry(w: World, key: string)
    requires Inv(w) && Current(w, key).Some? && DIR <= key
    ensures EntriesAt(w.db.rows, DIR, "", 0, MaxId(w.db)) != []
  {
    hide Current, FullListing, ListRevision;
    MaxIdIsNewest(w);
    SomethingListed(w, key);
    IsFullListing(w.db.rows, w.db.lastId);
  }

  lemma IsFullListing(rows: Rows, r: nat)
    ensures EntriesAt(rows, DIR, "", 0, r) == Kvs(FullListing(rows, DIR, r))
  {
    hide ListRevision;
  }

  /** A key created between the two reads of a list of the present: the list carries the revision of that
    create without having its key, and no watch from there on delivers it. */
  lemma ListMisses() returns (w: World, others: seq<seq<Step>>)
    ensures ValidRun(INIT, [Make(X)]) && w == Run(INIT, [Make(X)])
    ensures others == [[Make(Y)], [], [], []] && Interleaved(w, others)
    ensures ListAnswer(w, others, DIR, "", 0, 0) == Ok((2, EntriesAt(w.db.rows, DIR, "", 0, 1)))
    ensures var now := WorldAt(w, others, 1);
            && 2 in now.hist && now.hist[2].name == Y && Matches(Y, DIR) && Current(w, Y).None?
            && forall a: World, b: World, received, e ::
                 Inv(a) && Inv(b) && Later(a, b) && e in Delivered(a, b, received, DIR, 2) ==> e.kv.modRevision != 2
  {
    hide Inv, Later, Current, Apply, EntriesAt, Delivered, MaxId, ListAt;
    w := OneKeyMade();
    KeysAreClients();
    others := [[Make(Y)], [], [], []];
    Made(w, Y);
    OneEntry(w, X);
    MaxIdIsNewest(w);
    var now := Apply(w, Make(Y));
    MaxIdIsNewest(now);
    QuietAfterOne(w, Make(Y));
    forall a: World, b: World, received, e | Inv(a) && Inv(b) && Later(a, b) && e in Delivered(a, b, received, DIR, 2)
      ensures e.kv.modRevision != 2
    {
      WindowIsLost(a, b, received, DIR, 2, e);
    }
  }

  lemma QuietAfterOne(w: World, s: Step)
    requires Enabled(w, s)
    ensures var others := [[s], [], [], []]; Interleaved(w, others) && WorldAt(w, others, 1) == Apply(w, s)
  {
    hide Apply, Enabled;
    var others := [[s], [], [], []];
    RunFirst(w, s, []);
    NothingRun(Apply(w, s));
    assert [s] + [] == [s];
    FirstWorld(w, others);
    assert WorldAt(w, others, 1) == Run(w, others[0]);
  }

  // ---------------------------------------------------------------- watches

  /** A database with a subscriber that has heard nothing yet, and nothing compacted. */
  ghost predicate Fresh(t: Whole) {
    && WholeOk(t)
    && t.pipe == []
    && t.hub == Hubs.Hub(true, {0}, map[0 := Hubs.Chan([], [], false, 0)], [], false)
    && t.sys == Sys(t.sys.w, 0, 0, 0, Idle, [], {})
    && t.sys.w.Compacted() == 0
  }

  lemma Subscribes(w: World)
    requires Inv(w) && w.Compacted() == 0
    ensures var t := Begin(w);
            && WholeOk(t) && CanMove(t, Client(Hubs.Subscribe)) && t.hub.subs <= t.hub.chans.Keys
            && Fresh(Moved(t, Client(Hubs.Subscribe))) && Moved(t, Client(Hubs.Subscribe)).sys.w == w
  {
    hide Inv, SysInv;
    BeginIsOk(w);
    MoveKeepsOk(Begin(w), Client(Hubs.Subscribe));
  }

  lemma WritesKey(t: Whole, key: string)
    requires Fresh(t) && ClientKey(key) && Current(t.sys.w, key).None?
    ensures var m := Log(SysStep.Db(Make(key)));
            && CanMove(t, m) && Fresh(Moved(t, m)) && Moved(t, m).sys.w == Apply(t.sys.w, Make(key))
  {
    hide Inv, Hubs.HubOk, Apply, Current, CompactRevision;
    WholeFacts(t);
    Made(t.sys.w, key);
    MoveKeepsOk(t, Log(SysStep.Db(Make(key))));
  }

  const POLLED: seq<Move> := [Log(Fetch)] + [Log(PassOn(false))]
  const HEARD: seq<Move> := POLLED + [Forward] + [Client(Hubs.Take(0))]

  lemma Polls(t: Whole) returns (t': Whole)
    requires Fresh(t) && 0 < t.sys.w.db.lastId <= POLL_LIMIT
    ensures Reaches(t, POLLED, t') && t'.sys.w == t.sys.w && t'.hub == t.hub
    ensures t'.sys.last == t.sys.w.db.lastId && t'.sys.lost == {} && t'.sys.log != [] && t'.pipe == [t'.sys.log]
  {
    hide Inv, SysInv, After, PassOver, Hubs.HubOk, Apply;
    var w := t.sys.w;
    ReachesNext(t, Log(Fetch));
    var f := Moved(t, Log(Fetch));
    FreshFacts(t);
    PassReachesEnd(w, 0, 0, false);
    ReachesNext(f, Log(PassOn(false)));
    t' := Moved(f, Log(PassOn(false)));
    ReachesThen(t, [Log(Fetch)], f, [Log(PassOn(false))], t');
    assert Missing(w, 0, t'.sys.last) == {};
    assert t'.sys.log == Handed(f.sys, PassOn(false)) by { HandedIsLogged(f.sys, PassOn(false)); }
    LogHas(t', w.db.lastId);
  }

  lemma FreshFacts(t: Whole)
    requires Fresh(t)
    ensures Inv(t.sys.w) && t.sys.w.Compacted() == 0
  {
  }

  lemma LogHas(t: Whole, i: nat)
    requires WholeOk(t) && t.sys.lost == {} && t.sys.pollStart < i <= t.sys.last
    ensures i in t.sys.w.hist && Scan(i, t.sys.w.hist[i]) in t.sys.log
  {
    hide Inv, Written;
    StreamSpelledOut(t.sys);
    WrittenIds(t.sys.w, i);
  }

  lemma Hears(t: Whole) returns (t': Whole)
    requires Fresh(t) && 0 < t.sys.w.db.lastId <= POLL_LIMIT
    ensures Reaches(t, HEARD, t') && t'.sys.w == t.sys.w && t'.sys.last == t.sys.w.db.lastId && t'.sys.lost == {}
    ensures 0 in t'.hub.chans && t'.hub.chans[0].received == [t'.sys.log]
  {
    hide Inv, SysInv, Hubs.HubOk;
    var p := Polls(t);
    ReachesNext(p, Forward);
    var q := Moved(p, Forward);
    ReachesThen(t, POLLED, p, [Forward], q);
    ReachesNext(q, Client(Hubs.Take(0)));
    t' := Moved(q, Client(Hubs.Take(0)));
    ReachesThen(t, POLLED + [Forward], q, [Client(Hubs.Take(0))], t');
  }

  lemma CatchUpHas(w: World, i: nat, rev: nat)
    requires Inv(w) && w.Compacted() <= rev < i <= w.db.lastId && i in w.hist && Matches(w.hist[i].name, DIR)
    ensures AfterPrefix(w.db.rows, DIR, rev, 0) != []
  {
    hide Inv, Wanted, AfterPrefix, CompactRevision;
    ItselfLater(w);
    CatchUpIsWanted(w, w, w, DIR, rev);
    WantedIs(w.hist, DIR, rev, w.db.lastId, {}, Scan(i, w.hist[i]));
  }

  /** A database with one key, then: a subscriber joins and a key is created; the watcher reads its rows in a;
    another key is created; it reads the revisions in b; the poller and the broadcaster run, and the
    subscriber receives what is published by t. */
  ghost predicate WindowRun(a: Whole, b: Whole, t: Whole) {
    && ValidRun(INIT, [Make(B)])
    && Reaches(Begin(Run(INIT, [Make(B)])), [Client(Hubs.Subscribe)] + [Log(SysStep.Db(Make(X)))], a)
    && Reaches(a, [Log(SysStep.Db(Make(Y)))], b)
    && Reaches(b, HEARD, t)
  }

  /** The watch from revision 2 has something to catch up and is not refused; the second key's create is
    received from the stream, and not delivered. */
  ghost predicate CreateIsMissed(a: Whole, b: Whole, t: Whole) {
    && 0 in a.hub.chans && 0 in t.hub.chans
    && b.sys.w.Compacted() <= 1 && AfterPrefix(a.sys.w.db.rows, DIR, 1, 0) != []
    && 3 in t.sys.w.hist
    && (var e, received := Scan(3, t.sys.w.hist[3]), Flat(t.hub.chans[0].received);
        e.kv.key == Y && Matches(Y, DIR) && e in received && e !in Delivered(a.sys.w, b.sys.w, received, DIR, 1))
  }

  /** A key created between the two reads of a watch is missed. */
  lemma WatchMisses() returns (a: Whole, b: Whole, t: Whole)
    ensures WindowRun(a, b, t) && CreateIsMissed(a, b, t)
  {
    hide Inv, Later, Current, Apply, Fresh, CompactRevision, WholeOk, Moved, CanMove, Reaches, CreateIsMissed;
    KeysAreClients();
    var w := MadeFirst(B);
    NothingElse(w, B, X);
    NothingElse(w, B, Y);
    Subscribes(w);
    var s := Moved(Begin(w), Client(Hubs.Subscribe));
    ReachesNext(Begin(w), Client(Hubs.Subscribe));
    a := CreatesKey(s, X);
    ReachesThen(Begin(w), [Client(Hubs.Subscribe)], s, [Log(SysStep.Db(Make(X)))], a);
    b := CreatesKey(a, Y);
    t := Hears(b);
    Misses(a, b, t);
  }

  lemma Misses(a: Whole, b: Whole, t: Whole)
    requires Fresh(a) && Fresh(b) && Reaches(b, HEARD, t) && Later(a.sys.w, b.sys.w) && t.sys.w == b.sys.w
    requires a.sys.w.db.lastId == 2 && 2 in a.sys.w.hist && a.sys.w.hist[2].name == X
    requires b.sys.w.db.lastId == 3 && 3 in b.sys.w.hist && b.sys.w.hist[3].name == Y
    requires 0 in t.hub.chans && t.hub.chans[0].received == [t.sys.log] && t.sys.last == 3 && t.sys.lost == {}
    ensures CreateIsMissed(a, b, t)
  {
    hide Inv, Later, Fresh, CompactRevision, WholeOk, Reaches, Delivered, AfterPrefix, HEARD;
    KeysAreClients();
    FreshChan(a);
    FreshChan(b);
    CatchUpHas(a.sys.w, 2, 1);
    ReachedOk(b, HEARD, t);
    LogHas(t, 3);
    FlatOne(t.sys.log);
    var e := Scan(3, t.sys.w.hist[3]);
    if e in Delivered(a.sys.w, b.sys.w, Flat(t.hub.chans[0].received), DIR, 1) {
      WindowIsLost(a.sys.w, b.sys.w, Flat(t.hub.chans[0].received), DIR, 1, e);
    }
  }

  lemma ReachedOk(t: Whole, moves: seq<Move>, t': Whole)
    requires Reaches(t, moves, t')
    ensures WholeOk(t') && t.sys.pollStart == t'.sys.pollStart
  {
    hide WholeOk;
    RunGrows(t, moves);
  }

  lemma FreshChan(t: Whole)
    requires Fresh(t)
    ensures 0 in t.hub.chans && WholeOk(t) && Inv(t.sys.w) && t.sys.w.Compacted() == 0 && t.sys.pollStart == 0
  {
  }

  lemma FlatOne(batch: Batch)
    ensures Flat([batch]) == batch
  {
    assert [batch][..0] == [];
  }

  lemma MadeFirst(key: string) returns (w: World)
    requires ClientKey(key)
    ensures ValidRun(INIT, [Make(key)]) && w == Run(INIT, [Make(key)]) == Apply(INIT, Make(key))
    ensures Inv(w) && w.db.lastId == 1 && w.Compacted() == 0
  {
    hide Inv, Later, Current, Apply, CompactRevision;
    InitInv();
    NothingYet(key);
    Made(INIT, key);
    w := Apply(INIT, Make(key));
    InitCompacted();
    RunFirst(INIT, Make(key), []);
    NothingRun(w);
    assert [Make(key)] + [] == [Make(key)];
  }

  lemma InitCompacted()
    ensures INIT.Compacted() == 0
  {
    CompactRevisionIs(INIT.db.rows, 0);
  }

  lemma NothingElse(w: World, key: string, other: string)
    requires ClientKey(key) && w == Apply(INIT, Make(key)) && other != key
    ensures Current(w, other).None?
  {
    hide Inv, Later, Current, Apply;
    InitInv();
    NothingYet(key);
    NothingYet(other);
    Made(INIT, key);
  }

  /** A client creates a key while the subscriber waits. */
  lemma CreatesKey(t: Whole, key: string) returns (t': Whole)
    requires Fresh(t) && ClientKey(key) && Current(t.sys.w, key).None?
    ensures Reaches(t, [Log(SysStep.Db(Make(key)))], t') && Fresh(t')
    ensures var n := t.sys.w.db.lastId + 1;
            && t'.sys.w.db.lastId == n && n in t'.sys.w.hist && t'.sys.w.hist[n].name == key
            && Later(t.sys.w, t'.sys.w) && Inv(t'.sys.w)
            && (forall other :: other != key ==> Current(t'.sys.w, other) == Current(t.sys.w, other))
  {
    hide Inv, Later, Current, Apply, Fresh, CompactRevision, WholeOk;
    FreshChan(t);
    WritesKey(t, key);
    ReachesNext(t, Log(SysStep.Db(Make(key))));
    t' := Moved(t, Log(SysStep.Db(Make(key))));
    Made(t.sys.w, key);
  }
}
