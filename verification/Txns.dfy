/** Transactions: the shapes the handler recognises, what it does with them, and what etcd would do. */
module Txns {
  import opened Keys
  import opened Table
  import opened History
  import opened Runs
  import opened Snapshots
  import opened Listing
  import opened Cas
  import opened Pagination
  import opened Backend
  import opened Ranges

  datatype Target = Version | Create | Mod | Value | Lease
  datatype Relation = Equal | Greater | Lesser | NotEqual
  datatype Compare = Compare(target: Target, result: Relation, key: string, modRevision: nat)

  datatype Op =
    | Put(key: string, value: Blob, lease: int, ignoreLease: bool, ignoreValue: bool, prevKv: bool)
    | DeleteRange(key: string, rangeEnd: string, prevKv: bool)
    | Range(request: RangeRequest)
    | Nested

  datatype TxnRequest = TxnRequest(compare: seq<Compare>, success: seq<Op>, failure: seq<Op>)

  datatype Done =
    | PutDone(rev: nat, prev: Option<KeyValue>)
    | DeleteDone(rev: nat, deleted: nat, prevs: seq<KeyValue>)
    | RangeDone(rev: nat, kvs: seq<KeyValue>, more: bool, count: nat)

  datatype TxnResponse = TxnResponse(rev: nat, succeeded: bool, responses: seq<Done>)

  // ---------------------------------------------------------------- recognising the shapes

  predicate ComparesMod(txn: TxnRequest) {
    |txn.compare| == 1 && txn.compare[0].target == Mod && txn.compare[0].result == Equal
  }

  predicate IsCreate(txn: TxnRequest) {
    && ComparesMod(txn)
    && txn.compare[0].modRevision == 0
    && |txn.failure| == 0
    && |txn.success| == 1
    && txn.success[0].Put?
  }

  predicate IsDelete(txn: TxnRequest) {
    && ComparesMod(txn)
    && |txn.failure| == 1
    && txn.failure[0].Range?
    && |txn.success| == 1
    && txn.success[0].DeleteRange?
  }

  predicate IsUpdate(txn: TxnRequest) {
    && ComparesMod(txn)
    && |txn.success| == 1
    && txn.success[0].Put?
    && |txn.failure| == 1
    && txn.failure[0].Range?
  }

  predicate IsCompact(txn: TxnRequest) {
    && |txn.compare| == 1
    && txn.compare[0].target == Version
    && txn.compare[0].result == Equal
    && |txn.success| == 1
    && txn.success[0].Put?
    && |txn.failure| == 1
    && txn.failure[0].Range?
    && txn.compare[0].key == COMPACT_KEY
  }

  predicate PlainPut(op: Op) {
    op.Put? && !op.ignoreLease && !op.ignoreValue && !op.prevKv
  }

  /** A write the handler carries out: one of the three shapes, and a create without flags. */
  predicate IsWrite(txn: TxnRequest) {
    (IsCreate(txn) && PlainPut(txn.success[0])) || IsDelete(txn) || IsUpdate(txn)
  }

  lemma ShapesDiffer(txn: TxnRequest)
    ensures IsCreate(txn) ==> !IsDelete(txn) && !IsUpdate(txn)
    ensures IsDelete(txn) ==> !IsUpdate(txn)
    ensures IsCreate(txn) || IsDelete(txn) || IsUpdate(txn) ==> !IsCompact(txn)
  {
  }

  // ---------------------------------------------------------------- what the handler does

  /** The key a write shape acts on: an update takes it from the comparison, the others from the operation. */
  function KeyOf(txn: TxnRequest): string
    requires IsWrite(txn)
  {
    if IsUpdate(txn) then txn.compare[0].key else txn.success[0].key
  }

  /** The statement a write shape runs. */
  function StepOf(txn: TxnRequest): Step
    requires IsWrite(txn)
  {
    var rev, op := txn.compare[0].modRevision, txn.success[0];
    if IsDelete(txn) then History.Delete(op.key, rev)
    else if rev == 0 then History.Create(KeyOf(txn), op.value, op.lease)
    else History.Update(KeyOf(txn), op.value, rev, op.lease)
  }

  /** The handler's own test: the key it writes is at the expected revision. Revision 0 is no revision
    to delete at. */
  predicate Passes(w: World, txn: TxnRequest)
    requires IsWrite(txn)
  {
    ModRevision(w, KeyOf(txn)) == txn.compare[0].modRevision && (IsDelete(txn) ==> txn.compare[0].modRevision > 0)
  }

  function BirthOf(w: World, key: string): nat {
    match Current(w, key)
    case Some(kv) => kv.createRevision
    case None => w.db.lastId + 1
  }

  /** What a write leaves the key with. */
  function Effect(w: World, txn: TxnRequest): Option<KeyValue>
    requires IsWrite(txn)
  {
    if IsDelete(txn) then None
    else
      var put := txn.success[0];
      Some(KeyValue(KeyOf(txn), BirthOf(w, KeyOf(txn)), w.db.lastId + 1, put.value, put.lease))
  }

  /** A write is a compare-and-swap on its key: either the test passes, the key is set at the next revision
    and no other key changes, or nothing happens. */
  ghost predicate Swaps(w: World, w': World, txn: TxnRequest)
    requires IsWrite(txn)
  {
    if Passes(w, txn) then w'.db.lastId == w.db.lastId + 1 && Sets(w, w', KeyOf(txn), Effect(w, txn)) else w' == w
  }

  /** What a key that is asked for at the present is answered with. */
  function Fetched(w: World, key: string): seq<KeyValue> {
    match FirstOf(w.hist, key, w.db.lastId)
    case Some(kv) => [kv]
    case None => []
  }

  /** The answer to a write in world w. A failed update or delete reads the key back, the row in a later world
    `asked`; `now` is the revision read after it. */
  function Answer(w: World, asked: World, now: nat, txn: TxnRequest): TxnResponse
    requires IsWrite(txn)
  {
    var n := w.db.lastId + 1;
    if Passes(w, txn) then TxnResponse(n, true, [if IsDelete(txn) then DeleteDone(n, 0, []) else PutDone(n, None)])
    else if IsCreate(txn) then TxnResponse(0, false, [])
    else TxnResponse(0, false, [RangeDone(now, Fetched(asked, KeyOf(txn)), false, 0)])
  }

  /** Compactions asked for by clients are answered as if the comparison had failed. */
  function CompactAnswer(): TxnResponse {
    TxnResponse(0, false, [RangeDone(0, [KeyValue("", 0, 0, None, 0)], false, 1)])
  }

  // ---------------------------------------------------------------- what etcd would do

  predicate InSpan(k: string, key: string, rangeEnd: string) {
    if rangeEnd == "" then k == key
    else if rangeEnd == [NUL] then AtMost(key, k)
    else InRange(k, key, rangeEnd)
  }

  /** The keys of a span that are live at a revision. */
  function LiveIn(w: World, key: string, rangeEnd: string, r: nat): set<string> {
    set k | k in Names(w.hist) && InSpan(k, key, rangeEnd) && VisibleAt(w.hist, k, r).Some?
  }

  function FoundEvents(w: World, key: string, rangeEnd: string, r: nat): seq<Event> {
    EventsAt(w.hist, SortNames(LiveIn(w, key, rangeEnd, r)), r)
  }

  function RevisionOf(w: World, request: RangeRequest): nat {
    if request.revision == 0 then w.db.lastId else request.revision
  }

  /** All that a range request matches, in the order of the keys. */
  function Found(w: World, request: RangeRequest): seq<KeyValue> {
    Kvs(FoundEvents(w, request.key, request.rangeEnd, RevisionOf(w, request)))
  }

  function WithoutValues(kvs: seq<KeyValue>): seq<KeyValue> {
    seq(|kvs|, k requires 0 <= k < |kvs| => kvs[k].(value := None))
  }

  /** A range answers with what it found up to its limit, and always with the count of all of it. */
  function EtcdRange(w: World, request: RangeRequest): Done {
    var found := Found(w, request);
    var shown := if 0 < request.limit < |found| then found[..request.limit] else found;
    if request.countOnly then RangeDone(w.db.lastId, [], false, |found|)
    else RangeDone(w.db.lastId, if request.keysOnly then WithoutValues(shown) else shown, |shown| < |found|, |found|)
  }

  predicate Empty(value: Blob) {
    value == None || value == Some("")
  }

  /** What etcd checks of a request before anything else: keys are given, and a put that keeps the value or
    the lease brings none. */
  predicate WellFormed(op: Op) {
    match op
    case Put(key, value, lease, ignoreLease, ignoreValue, _) =>
      key != "" && (ignoreValue ==> Empty(value)) && (ignoreLease ==> lease == 0)
    case DeleteRange(key, _, _) => key != ""
    case Range(request) => request.key != ""
    case Nested => false
  }

  predicate Holds(w: World, txn: TxnRequest)
    requires ComparesMod(txn)
  {
    ModRevision(w, txn.compare[0].key) == txn.compare[0].modRevision
  }

  /** The operations etcd runs. */
  function Chosen(w: World, txn: TxnRequest): seq<Op>
    requires ComparesMod(txn)
  {
    if Holds(w, txn) then txn.success else txn.failure
  }

  /** What etcd checks of an operation it is about to run: there is something to keep, and the revision is
    one it can answer for. */
  predicate Runnable(w: World, op: Op) {
    match op
    case Put(key, _, _, ignoreLease, ignoreValue, _) => ignoreLease || ignoreValue ==> Current(w, key).Some?
    case DeleteRange(_, _, _) => true
    case Range(request) => request.revision == 0 || w.Compacted() <= request.revision <= w.db.lastId
    case Nested => false
  }

  predicate Accepts(w: World, txn: TxnRequest)
    requires ComparesMod(txn)
  {
    && txn.compare[0].key != ""
    && (forall op :: op in txn.success + txn.failure ==> WellFormed(op))
    && (forall op :: op in Chosen(w, txn) ==> Runnable(w, op))
  }

  /** What a put leaves its key with. */
  function EtcdPut(w: World, put: Op): KeyValue
    requires put.Put? && Runnable(w, put)
  {
    KeyValue(put.key, BirthOf(w, put.key), w.db.lastId + 1,
             if put.ignoreValue then Current(w, put.key).value.value else put.value,
             if put.ignoreLease then Current(w, put.key).value.lease else put.lease)
  }

  /** What an operation does to the map. */
  ghost predicate EtcdDoes(w: World, w': World, op: Op)
    requires Runnable(w, op)
  {
    match op
    case Put(key, _, _, _, _, _) => w'.db.lastId == w.db.lastId + 1 && Sets(w, w', key, Some(EtcdPut(w, op)))
    case DeleteRange(key, rangeEnd, _) =>
      var dead := LiveIn(w, key, rangeEnd, w.db.lastId);
      if dead == {} then w' == w
      else w'.db.lastId == w.db.lastId + 1 && forall k :: Current(w', k) == if k in dead then None else Current(w, k)
    case Range(_) => w' == w
  }

  function EtcdAnswer(w: World, op: Op): Done
    requires Runnable(w, op)
  {
    match op
    case Put(key, _, _, _, _, prevKv) => PutDone(w.db.lastId + 1, if prevKv then Current(w, key) else None)
    case DeleteRange(key, rangeEnd, prevKv) =>
      var dead := LiveIn(w, key, rangeEnd, w.db.lastId);
      DeleteDone(if dead == {} then w.db.lastId else w.db.lastId + 1, |dead|,
                 if prevKv then Kvs(FoundEvents(w, key, rangeEnd, w.db.lastId)) else [])
    case Range(request) => EtcdRange(w, request)
  }

  /** etcd accepts the transaction, and its success flag and the state it leaves are these. At most one
    operation runs, as in all recognised shapes. */
  ghost predicate EtcdState(w: World, w': World, txn: TxnRequest, succeeded: bool)
    requires ComparesMod(txn)
  {
    && Accepts(w, txn)
    && succeeded == Holds(w, txn)
    && (if Chosen(w, txn) == [] then w' == w else |Chosen(w, txn)| == 1 && EtcdDoes(w, w', Chosen(w, txn)[0]))
  }

  function EtcdResponses(w: World, txn: TxnRequest): seq<Done>
    requires ComparesMod(txn) && Accepts(w, txn)
  {
    var ops := Chosen(w, txn);
    seq(|ops|, k requires 0 <= k < |ops| => EtcdAnswer(w, ops[k]))
  }

  // ---------------------------------------------------------------- where they agree

  /** What it takes for the handler's success flag and state to be etcd's, shape by shape. */
  predicate SameState(w: World, txn: TxnRequest)
    requires IsWrite(txn)
  {
    var cmp, op := txn.compare[0], txn.success[0];
    if IsCreate(txn) then
      Current(w, cmp.key).None? <==> Current(w, op.key).None?
    else if IsDelete(txn) then
      if cmp.modRevision == 0 then Current(w, cmp.key).Some?
      else
        && (ModRevision(w, op.key) == cmp.modRevision <==> ModRevision(w, cmp.key) == cmp.modRevision)
        && (ModRevision(w, op.key) == cmp.modRevision ==> LiveIn(w, op.key, op.rangeEnd, w.db.lastId) == {op.key})
    else
      ModRevision(w, cmp.key) == cmp.modRevision ==>
        && op.key == cmp.key
        && (op.ignoreValue ==> Current(w, op.key).Some? && Current(w, op.key).value.value == op.value)
        && (op.ignoreLease ==> Current(w, op.key).Some? && Current(w, op.key).value.lease == op.lease)
  }

  lemma AbsentIsZero(w: World, key: string)
    requires Inv(w)
    ensures Current(w, key).None? <==> ModRevision(w, key) == 0
    ensures ModRevision(w, key) <= w.db.lastId
    ensures Current(w, key).Some? ==> key in Names(w.hist)
  {
    if Current(w, key).Some? { VisibleIsNamed(w.hist, key, w.db.lastId); }
  }

  lemma LiveInIs(w: World, key: string, rangeEnd: string)
    requires Inv(w)
    ensures forall k :: k in LiveIn(w, key, rangeEnd, w.db.lastId) <==> InSpan(k, key, rangeEnd) && Current(w, k).Some?
  {
    hide Inv, VisibleAt, Names;
    forall k | Current(w, k).Some? ensures k in Names(w.hist) { AbsentIsZero(w, k); }
  }

  /** A swap and no change cannot be taken for one another, nor swaps of different keys or contents. */
  lemma SwapIsDefinite(w: World, w': World, key: string, kv: Option<KeyValue>, other: string, kv': Option<KeyValue>)
    requires Inv(w) && Sets(w, w', key, kv)
    requires kv.Some? ==> kv.value.modRevision > w.db.lastId
    requires kv.None? ==> Current(w, key).Some?
    ensures Sets(w, w', other, kv') <==> other == key && kv' == kv
    ensures w' != w
  {
    hide Inv, VisibleAt;
    AbsentIsZero(w, key);
    assert Current(w', key) != Current(w, key);
  }

  lemma CreateIsEtcd(w: World, w': World, txn: TxnRequest)
    requires Inv(w) && IsWrite(txn) && IsCreate(txn) && Swaps(w, w', txn)
    ensures EtcdState(w, w', txn, Passes(w, txn)) <==> Accepts(w, txn) && SameState(w, txn)
  {
    hide Inv, Current, Sets, WellFormed, LiveIn;
    AbsentIsZero(w, txn.compare[0].key);
    AbsentIsZero(w, txn.success[0].key);
    if Accepts(w, txn) { assert Holds(w, txn) ==> txn.success[0] in Chosen(w, txn); }
  }

  /** A delete of one live key is etcd's delete of a span if the span holds no other. */
  lemma DeletesAgree(w: World, w': World, key: string, rangeEnd: string)
    requires Inv(w) && Current(w, key).Some? && Sets(w, w', key, None) && w'.db.lastId == w.db.lastId + 1
    ensures EtcdDoes(w, w', DeleteRange(key, rangeEnd, false)) <==> LiveIn(w, key, rangeEnd, w.db.lastId) == {key}
  {
    hide Inv, Current, LiveIn;
    LiveInIs(w, key, rangeEnd);
    var dead := LiveIn(w, key, rangeEnd, w.db.lastId);
    if dead == {key} {
    } else if k :| k in dead && k != key {
      assert Current(w', k) == Current(w, k) != None;
    } else {
      assert key !in dead;
    }
  }

  lemma DeleteIsEtcd(w: World, w': World, txn: TxnRequest)
    requires Inv(w) && IsDelete(txn) && Swaps(w, w', txn)
    ensures EtcdState(w, w', txn, Passes(w, txn)) <==> Accepts(w, txn) && SameState(w, txn)
  {
    hide Inv, Current, Sets, WellFormed, LiveIn;
    var cmp, op := txn.compare[0], txn.success[0];
    AbsentIsZero(w, cmp.key);
    AbsentIsZero(w, op.key);
    if Passes(w, txn) && Holds(w, txn) { DeletesAgree(w, w', op.key, op.rangeEnd); }
  }

  lemma PutsAgree(w: World, w': World, txn: TxnRequest)
    requires Inv(w) && IsUpdate(txn) && Swaps(w, w', txn) && Passes(w, txn) && Runnable(w, txn.success[0])
    ensures EtcdDoes(w, w', txn.success[0]) <==> SameState(w, txn)
  {
    hide Inv, Current, Sets, LiveIn;
    var put := txn.success[0];
    SwapIsDefinite(w, w', KeyOf(txn), Effect(w, txn), put.key, Some(EtcdPut(w, put)));
  }

  lemma UpdateIsEtcd(w: World, w': World, txn: TxnRequest)
    requires Inv(w) && IsUpdate(txn) && Swaps(w, w', txn)
    ensures EtcdState(w, w', txn, Passes(w, txn)) <==> Accepts(w, txn) && SameState(w, txn)
  {
    hide Inv, Current, Sets, WellFormed, LiveIn, EtcdDoes;
    if Accepts(w, txn) {
      assert Chosen(w, txn)[0] in Chosen(w, txn);
      if Passes(w, txn) { PutsAgree(w, w', txn); } else { RangeDoesNothing(w, w', txn.failure[0]); }
    }
  }

  lemma RangeDoesNothing(w: World, w': World, op: Op)
    requires op.Range? && Runnable(w, op)
    ensures EtcdDoes(w, w', op) <==> w' == w
  {
  }

  /** For every transaction the handler carries out, on whatever keys, with whatever flags and ranges: its
    success flag and the state it leaves are etcd's if and only if etcd accepts the transaction and it is
    one of those described by SameState. */
  lemma StateIsEtcd(w: World, w': World, txn: TxnRequest)
    requires Inv(w) && IsWrite(txn) && Swaps(w, w', txn)
    ensures EtcdState(w, w', txn, Passes(w, txn)) <==> Accepts(w, txn) && SameState(w, txn)
  {
    hide Inv, Swaps, EtcdState, Accepts, SameState, Passes, ComparesMod;
    if IsCreate(txn) { CreateIsEtcd(w, w', txn); }
    else if IsDelete(txn) { DeleteIsEtcd(w, w', txn); }
    else { UpdateIsEtcd(w, w', txn); }
  }

  /** What it takes for the whole answer to be etcd's: the test and the comparison agree, and then a create
    never differs, a put must not owe a previous value, a delete always owes its number, and a range read
    back always owes its count, unless there is nothing to count. */
  predicate SameAnswer(w: World, asked: World, now: nat, txn: TxnRequest)
    requires IsWrite(txn)
  {
    var cmp, op := txn.compare[0], txn.success[0];
    if IsCreate(txn) then
      Current(w, cmp.key).None? <==> Current(w, op.key).None?
    else if Holds(w, txn) then
      IsUpdate(txn) && (op.prevKv ==> Current(w, op.key).None?)
    else
      && !Passes(w, txn)
      && now == w.db.lastId
      && Fetched(asked, KeyOf(txn)) == []
      && Found(w, txn.failure[0].request) == []
  }

  lemma OneResponse(w: World, txn: TxnRequest)
    requires ComparesMod(txn) && Accepts(w, txn) && |Chosen(w, txn)| == 1
    ensures Runnable(w, Chosen(w, txn)[0])
    ensures EtcdResponses(w, txn) == [EtcdAnswer(w, Chosen(w, txn)[0])]
  {
    hide WellFormed, Runnable, EtcdAnswer;
    assert Chosen(w, txn)[0] in Chosen(w, txn);
  }

  lemma RangeOwesCount(w: World, request: RangeRequest, rev: nat, kvs: seq<KeyValue>)
    ensures EtcdRange(w, request).RangeDone?
    ensures EtcdRange(w, request) == RangeDone(rev, kvs, false, 0)
       <==> rev == w.db.lastId && kvs == [] && Found(w, request) == []
  {
    hide Found;
  }

  function EtcdResponse(w: World, w': World, txn: TxnRequest): TxnResponse
    requires ComparesMod(txn) && Accepts(w, txn)
  {
    TxnResponse(w'.db.lastId, Holds(w, txn), EtcdResponses(w, txn))
  }

  lemma ResponsesAgree(w: World, asked: World, now: nat, txn: TxnRequest)
    requires Inv(w) && IsWrite(txn) && Accepts(w, txn)
    ensures Answer(w, asked, now, txn).responses == EtcdResponses(w, txn) <==> SameAnswer(w, asked, now, txn)
  {
    hide Inv, Current, Fetched, Found, LiveIn, FoundEvents, Accepts, EtcdRange, Runnable;
    var cmp, op := txn.compare[0], txn.success[0];
    AbsentIsZero(w, cmp.key);
    AbsentIsZero(w, op.key);
    if Chosen(w, txn) != [] { OneResponse(w, txn); }
    if !Holds(w, txn) && !IsCreate(txn) {
      RangeOwesCount(w, txn.failure[0].request, now, Fetched(asked, KeyOf(txn)));
    }
  }

  /** For every transaction the handler carries out and etcd accepts: the responses are etcd's if and only
    if the transaction is one of those described by SameAnswer, and with the header the whole answer is if
    it also succeeded or the store is empty. */
  lemma AnswerIsEtcd(w: World, w': World, asked: World, now: nat, txn: TxnRequest)
    requires Inv(w) && IsWrite(txn) && Accepts(w, txn) && Swaps(w, w', txn)
    ensures Answer(w, asked, now, txn).responses == EtcdResponses(w, txn) <==> SameAnswer(w, asked, now, txn)
    ensures Answer(w, asked, now, txn) == EtcdResponse(w, w', txn)
       <==> SameAnswer(w, asked, now, txn) && (Passes(w, txn) || w.db.lastId == 0)
  {
    hide Inv, Current, Fetched, Found, LiveIn, FoundEvents, Accepts, EtcdResponses, Sets;
    ResponsesAgree(w, asked, now, txn);
    AbsentIsZero(w, txn.compare[0].key);
    AbsentIsZero(w, txn.success[0].key);
  }

  // ---------------------------------------------------------------- transactions about one key

  /** What clients of this store send: all parts name one key, the put is plain, and the failure branch reads
    the key. */
  predicate About(txn: TxnRequest, key: string) {
    && key != "" && |txn.compare| == |txn.success| == 1
    && txn.compare[0].key == key
    && (txn.success[0].Put? ==> PlainPut(txn.success[0]) && txn.success[0].key == key)
    && (txn.success[0].DeleteRange? ==> txn.success[0].key == key && txn.success[0].rangeEnd == "")
    && (forall op :: op in txn.failure && op.Range? ==> AsksFor(op.request, key))
  }

  predicate AsksFor(request: RangeRequest, key: string) {
    request.key == key && request.rangeEnd == "" && request.revision == 0
  }

  /** On transactions about one key the handler leaves etcd's state and success flag, except that it fails a
    delete of an absent key at revision 0, which etcd lets succeed. */
  lemma OneKeyIsEtcd(w: World, w': World, txn: TxnRequest, key: string)
    requires Inv(w) && IsWrite(txn) && Swaps(w, w', txn) && About(txn, key)
    ensures EtcdState(w, w', txn, Passes(w, txn))
       <==> !(IsDelete(txn) && txn.compare[0].modRevision == 0 && Current(w, key).None?)
  {
    hide Inv, Current, LiveIn, Swaps, EtcdState, Sets;
    StateIsEtcd(w, w', txn);
    AbsentIsZero(w, key);
    LiveInIs(w, key, "");
    if Current(w, key).Some? { assert LiveIn(w, key, "", w.db.lastId) == {key}; }
  }

  // ---------------------------------------------------------------- what is read back

  /** What it takes for a read-back of a key to show the entries etcd's range shows: if it shows none, the range
    finds none or only counts; if it shows one, that is the first or only key the range has room for, in its
    version of now, and with values left out only if it has none. */
  predicate SameEntries(w: World, key: string, request: RangeRequest) {
    var own, at := Fetched(w, key), RevisionOf(w, request);
    var live := LiveIn(w, request.key, request.rangeEnd, at);
    if own == [] then
      request.countOnly || live == {}
    else
      var first := own[0].key;
      && !request.countOnly
      && (request.keysOnly ==> own[0].value == None)
      && AloneOrFirst(live, first, request.limit)
      && LatestAt(w.hist, first, at) == own[0].modRevision
  }

  /** A range finds the versions of its live keys, in the order of the keys. */
  lemma FoundIs(w: World, request: RangeRequest)
    ensures var at := RevisionOf(w, request);
            var names, found := SortNames(LiveIn(w, request.key, request.rangeEnd, at)), Found(w, request);
            && |found| == |names|
            && (forall k :: 0 <= k < |names| ==>
                  && found[k].key == names[k]
                  && HeldAt(w.hist, names[k], at) == Some(found[k])
                  && found[k].modRevision == LatestAt(w.hist, names[k], at))
  {
    hide VisibleAt, SortNames, LiveIn;
    var at := RevisionOf(w, request);
    var names := SortNames(LiveIn(w, request.key, request.rangeEnd, at));
    LiveAreVisible(w, request.key, request.rangeEnd, at);
    forall k | 0 <= k < |names|
      ensures names[k] in names && VisibleAt(w.hist, names[k], at).Some?
      ensures VisibleAt(w.hist, names[k], at).value.kv.modRevision == LatestAt(w.hist, names[k], at)
      ensures VisibleAt(w.hist, names[k], at).value.kv.key == names[k]
    {
      assert names[k] in names;
      VisibleIsLatest(w.hist, names[k], at);
    }
  }

  lemma LiveAreVisible(w: World, key: string, rangeEnd: string, r: nat)
    ensures forall n :: n in LiveIn(w, key, rangeEnd, r) ==> VisibleAt(w.hist, n, r).Some?
  {
  }

  lemma SameVersion(rows: Rows, name: string, a: nat, b: nat)
    requires LatestAt(rows, name, a) == LatestAt(rows, name, b)
    ensures HeldAt(rows, name, a) == HeldAt(rows, name, b)
  {
  }

  lemma FetchedIsHeld(w: World, key: string)
    requires Fetched(w, key) != []
    ensures var kv := Fetched(w, key)[0];
            && Fetched(w, key) == [kv] && HeldAt(w.hist, kv.key, w.db.lastId) == Some(kv)
            && kv.modRevision == LatestAt(w.hist, kv.key, w.db.lastId)
  {
    hide VisibleAt, FirstOf;
    FirstIsHeld(w.hist, key, w.db.lastId);
  }

  /** The part of a range's findings that it shows. */
  function ShownOf(w: World, request: RangeRequest): seq<KeyValue> {
    var found := Found(w, request);
    if 0 < request.limit < |found| then found[..request.limit] else found
  }

  lemma RangeShows(w: World, request: RangeRequest)
    ensures EtcdRange(w, request).RangeDone?
    ensures EtcdRange(w, request).kvs
         == if request.countOnly then []
            else if request.keysOnly then WithoutValues(ShownOf(w, request))
            else ShownOf(w, request)
  {
    hide Found;
  }

  /** A key comes first among those a range has room for. */
  predicate AloneOrFirst(live: set<string>, first: string, limit: nat) {
    first in live && forall n :: n in live ==> n == first || (limit == 1 && Less(first, n))
  }

  /** A range shows one entry exactly if its first key is the only one, or the only one it has room for. */
  lemma OneShown(w: World, request: RangeRequest, first: string)
    ensures var live := LiveIn(w, request.key, request.rangeEnd, RevisionOf(w, request));
            |ShownOf(w, request)| == 1 && ShownOf(w, request)[0].key == first
            <==> AloneOrFirst(live, first, request.limit)
  {
    hide LiveIn, Found, SortNames, Less, HeldAt;
    var live := LiveIn(w, request.key, request.rangeEnd, RevisionOf(w, request));
    var names, shown := SortNames(live), ShownOf(w, request);
    FoundIs(w, request);
    SortNamesSorts(live);
    if |shown| == 1 && shown[0].key == first {
      assert names[0] == first && first in names;
      forall n | n in live ensures n == first || (request.limit == 1 && Less(first, n)) {
        var j :| 0 <= j < |names| && names[j] == n;
      }
    }
    if AloneOrFirst(live, first, request.limit) {
      var j :| 0 <= j < |names| && names[j] == first;
      assert names[0] in names && (|names| > 1 ==> names[1] in names);
      if j > 0 { LessTotal(first, names[0]); }
      if |names| > 1 { LessTotal(names[0], names[1]); }
    }
  }

  lemma EntriesAgree(w: World, key: string, request: RangeRequest)
    ensures Fetched(w, key) == EtcdRange(w, request).kvs <==> SameEntries(w, key, request)
  {
    hide LiveIn, Found, Fetched, SortNames, Less, HeldAt, EtcdRange;
    var own, shown, at := Fetched(w, key), ShownOf(w, request), RevisionOf(w, request);
    RangeShows(w, request);
    FoundIs(w, request);
    if own == [] {
      SortNamesSorts(LiveIn(w, request.key, request.rangeEnd, at));
    } else {
      FetchedIsHeld(w, key);
      OneShown(w, request, own[0].key);
      if |shown| == 1 && shown[0].key == own[0].key {
        if shown[0].modRevision == own[0].modRevision { SameVersion(w.hist, own[0].key, at, w.db.lastId); }
        KeepsValue(shown[0]);
      }
    }
  }

  lemma KeepsValue(kv: KeyValue)
    ensures WithoutValues([kv]) == [kv.(value := None)]
    ensures kv.(value := None) == kv <==> kv.value == None
  {
  }

  /** What a failed update or delete reads back, of whatever key, are the entries etcd's failure range would show at
    the moment of the reading if and only if they are SameEntries. */
  lemma ReadBackIsEtcd(w: World, asked: World, now: nat, txn: TxnRequest)
    requires Inv(w) && Inv(asked) && (IsDelete(txn) || IsUpdate(txn)) && !Passes(w, txn)
    ensures var request := txn.failure[0].request;
            Answer(w, asked, now, txn).responses[0].kvs == EtcdRange(asked, request).kvs
            <==> SameEntries(asked, KeyOf(txn), request)
  {
    hide Inv, Current, Fetched, SameEntries, EtcdRange;
    ShapesDiffer(txn);
    EntriesAgree(asked, KeyOf(txn), txn.failure[0].request);
  }

  /** When the range asks for the key itself, these are the same entries if and only if the key is there and is
    asked for with all it has, or is absent and no directory, or one with nothing below it. */
  lemma OwnEntries(w: World, key: string, request: RangeRequest)
    requires Inv(w) && AsksFor(request, key)
    ensures SameEntries(w, key, request)
       <==> match Current(w, key)
            case Some(kv) => !request.countOnly && (request.keysOnly ==> kv.value == None)
            case None => !EndsWithSlash(key) || FullListing(w.hist, key, w.db.lastId) == []
  {
    hide Inv, VisibleAt, FullListing, Less, LiveIn;
    HistoryNamesNulFree(w);
    FirstIsVisible(w.hist, key, w.db.lastId);
    CurrentIsHeld(w, key);
    LiveInIs(w, key, "");
    if Fetched(w, key) != [] { FetchedIsHeld(w, key); }
    if Current(w, key).Some? { VisibleIsLatest(w.hist, key, w.db.lastId); }
  }

  lemma CurrentIsHeld(w: World, key: string)
    ensures Current(w, key) == HeldAt(w.hist, key, w.db.lastId)
  {
  }

  // ---------------------------------------------------------------- from the statements to the swaps

  /** The statement of a write shape is its swap; it reports an id exactly if the test passes. */
  lemma StepSwaps(w: World, txn: TxnRequest)
    requires Inv(w) && IsWrite(txn) && ClientKey(KeyOf(txn))
    ensures Enabled(w, StepOf(txn)) && Swaps(w, Apply(w, StepOf(txn)), txn)
    ensures Passes(w, txn) <==> match StepOf(txn)
                                case Create(key, _, _) => !Live(w, key)
                                case Update(key, _, rev, _) => LiveAtRevision(w, key, rev)
                                case Delete(key, rev) => LiveAtRevision(w, key, rev)
  {
    hide Inv, Sets, Live, LiveAtRevision, Current;
    var key, rev, op := KeyOf(txn), txn.compare[0].modRevision, txn.success[0];
    AbsentIsZero(w, key);
    LiveIsCurrent(w, key, rev);
    if IsDelete(txn) {
      DeleteIsCas(w, key, rev);
    } else if rev == 0 {
      CreateIsCas(w, key, op.value, op.lease);
    } else {
      UpdateIsCas(w, key, op.value, rev, op.lease);
    }
  }

  /** What the row query of a read-back finds is what the history has. */
  lemma FetchedIsFirst(w: World, key: string)
    requires Inv(w)
    ensures FirstOf(w.db.rows, key, MaxId(w.db)) == FirstOf(w.hist, key, w.db.lastId)
  {
    hide Inv, FirstOf;
    MaxIdIsNewest(w);
    ItselfLater(w);
    FirstIsHistory(w, w, key, w.db.lastId);
  }

  lemma ItselfLater(w: World)
    requires Inv(w)
    ensures Later(w, w) && w.Compacted() <= w.db.lastId
  {
  }
}
