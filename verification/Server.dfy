/** LimitedServer: the subset of etcd's KV service that the store offers. `others` says what everyone else
  does between the statements of a call. */
module Server {
  import opened Keys
  import opened Table
  import opened History
  import opened Runs
  import opened Snapshots
  import opened Pagination
  import opened Cas
  import opened Backend
  import opened Ranges
  import opened Txns

  /** The world right after the write of a transaction, if it writes. */
  function Written(w: World, txn: TxnRequest): World {
    if IsWrite(txn) then Apply(w, StepOf(txn)) else w
  }

  /** Between a write, the row of a read-back, and the reads of its revision. */
  const READ_GAPS: nat := 3

  /** The revision that goes with a read-back. */
  function ReadAt(w: World, others: seq<seq<Step>>): nat
    requires |others| == READ_GAPS
  {
    RevisionRead(WorldAt(w, others, 1), others[1..])
  }

  /** What a transaction is answered with. */
  function TxnAnswer(w: World, others: seq<seq<Step>>, txn: TxnRequest): Result<TxnResponse>
    requires |others| == READ_GAPS
  {
    if IsWrite(txn) then
      var w' := Written(w, txn);
      Ok(Answer(w, WorldAt(w', others, 1), ReadAt(w', others), txn))
    else if IsCompact(txn) then Ok(CompactAnswer())
    else Err(Unsupported)
  }

  class LimitedServer {
    const backend: LogStructured

    constructor (backend: LogStructured)
      ensures this.backend == backend
    {
      this.backend := backend;
    }

    // -------------------------------------------------------------- ranges

    method Range(r: RangeRequest, others: seq<seq<Step>>) returns (res: Result<RangeResponse>)
      requires backend.d.Valid() && Interleaved(backend.d.World(), others) && |others| == RANGE_GAPS
      modifies backend.d
      ensures backend.d.Valid() && backend.d.World() == WorldAt(old(backend.d.World()), others, RANGE_GAPS)
      ensures r.rangeEnd != "" ==> res == RangeAnswer(old(backend.d.World()), others, r)
      ensures r.rangeEnd == "" ==> res == Ok(GetAnswer(old(backend.d.World()), others, r))
    {
      hide RangeAnswer, GetAnswer, Driver.Generic.Valid, WorldAt, Interleaved;
      if |r.rangeEnd| == 0 {
        var one := Get(r, others);
        res := Ok(one);
      } else {
        res := List(r, others);
      }
    }

    /** A page of the prefix that the range end names, from after the request's key. */
    method List(r: RangeRequest, others: seq<seq<Step>>) returns (res: Result<RangeResponse>)
      requires backend.d.Valid() && Interleaved(backend.d.World(), others) && |others| == RANGE_GAPS
      modifies backend.d
      ensures backend.d.Valid() && backend.d.World() == WorldAt(old(backend.d.World()), others, RANGE_GAPS)
      ensures res == RangeAnswer(old(backend.d.World()), others, r)
    {
      hide Inv, ListAnswer, CountAnswer, DerivedPrefix, TrimNul, WorldAt, Interleaved;
      ghost var w := backend.d.World();
      FirstWorld(w, others);
      if |r.rangeEnd| == 0 {
        backend.d.Rest(w, others, 0);
        return Err(InvalidRangeEnd);
      }
      var prefix := DerivedPrefix(r.rangeEnd);
      var start := TrimNul(r.key);
      var revision := r.revision;

      if r.countOnly {
        var counted := backend.Count(prefix, start, revision, others);
        match counted {
          case Ok((rev, count)) => return Ok(RangeResponse(rev, [], false, count));
          case Err(f) => return Err(f);
        }
      }

      var limit := r.limit;
      if limit > 0 {
        limit := limit + 1;
      }
      PartsOf(w, others);
      var listed := backend.List(prefix, start, limit, revision, others[..LIST_GAPS]);
      if listed.Err? {
        backend.d.Rest(w, others, LIST_GAPS);
        return Err(listed.failure);
      }
      var (rev, kvs) := listed.value;
      var resp := RangeResponse(rev, kvs, false, |kvs|);
      if limit > 0 && resp.count > r.limit {
        resp := resp.(more := true, kvs := kvs[..limit - 1]);
        if revision == 0 {
          revision := rev;
        }
        backend.d.Others(others[LIST_GAPS]);
        var counted := backend.Count(prefix, start, revision, others[LIST_GAPS + 1..]);
        if counted.Err? {
          return Err(counted.failure);
        }
        rev := counted.value.0;
        resp := resp.(count := counted.value.1, rev := rev);
      } else {
        backend.d.Rest(w, others, LIST_GAPS);
      }
      res := Ok(resp);
    }

    /** A single key. Unlike a list, it is answered at revisions that have been compacted too. */
    method Get(r: RangeRequest, others: seq<seq<Step>>) returns (res: RangeResponse)
      requires backend.d.Valid() && Interleaved(backend.d.World(), others) && |others| >= 2 && r.rangeEnd == ""
      modifies backend.d
      ensures backend.d.Valid() && backend.d.World() == WorldAt(old(backend.d.World()), others, |others|)
      ensures res == GetAnswer(old(backend.d.World()), others, r)
    {
      hide Inv, FirstOf, CompactRevision, MaxId, WorldAt, Interleaved, RevisionRead;
      var rev, kv := backend.Get(r.key, r.limit, r.revision, others);
      res := RangeResponse(rev, [], false, 0);
      if kv.Some? {
        res := res.(kvs := [kv.value]);
      }
    }

    // -------------------------------------------------------------- transactions

    /** Recognises a create, a delete, an update or the API server's compaction, in this order. A write is its
      compare-and-swap, and the answer is the one that goes with it. */
    method Txn(txn: TxnRequest, others: seq<seq<Step>>) returns (res: Result<TxnResponse>)
      requires backend.d.Valid() && |others| == READ_GAPS
      requires IsWrite(txn) ==> ClientKey(KeyOf(txn))
      requires Interleaved(Written(backend.d.World(), txn), others)
      modifies backend.d
      ensures var w := old(backend.d.World());
              var w' := Written(w, txn);
              && backend.d.Valid() && backend.d.World() == WorldAt(w', others, READ_GAPS)
              && (IsWrite(txn) ==> Swaps(w, w', txn))
              && res == TxnAnswer(w, others, txn)
    {
      hide Swaps, Answer, ClientKey, Inv, WorldAt, Interleaved, Apply;
      ghost var w := backend.d.World();
      ShapesDiffer(txn);
      FirstWorld(Written(w, txn), others);
      if IsWrite(txn) { StepSwaps(w, txn); }
      if IsCreate(txn) {
        res := Create(txn, others);
      } else if IsDelete(txn) {
        var resp := Delete(txn, others);
        res := Ok(resp);
      } else if IsUpdate(txn) {
        var resp := Update(txn, others);
        res := Ok(resp);
      } else {
        backend.d.Rest(w, others, 0);
        res := if IsCompact(txn) then Ok(CompactAnswer()) else Err(Unsupported);
      }
    }

    method Create(txn: TxnRequest, others: seq<seq<Step>>) returns (res: Result<TxnResponse>)
      requires backend.d.Valid() && |others| == READ_GAPS && IsCreate(txn)
      requires PlainPut(txn.success[0]) ==> ClientKey(txn.success[0].key)
      requires Interleaved(Written(backend.d.World(), txn), others)
      modifies backend.d
      ensures var w := old(backend.d.World());
              var w' := Written(w, txn);
              && backend.d.Valid() && backend.d.World() == WorldAt(w', others, READ_GAPS)
              && res == if PlainPut(txn.success[0]) then Ok(Answer(w, WorldAt(w', others, 1), ReadAt(w', others), txn))
                        else Err(Unsupported)
    {
      hide Inv, Live, ClientKey, Apply, WorldAt, Interleaved, Swaps, Passes;
      ghost var w := backend.d.World();
      ShapesDiffer(txn);
      FirstWorld(Written(w, txn), others);
      var put := txn.success[0];
      if put.ignoreLease || put.ignoreValue || put.prevKv {
        backend.d.Rest(w, others, 0);
        return Err(Unsupported);
      }
      StepSwaps(w, txn);
      var rev, created, _ := backend.d.Create(put.key, put.value, put.lease);
      backend.d.Rest(Written(w, txn), others, 0);
      if !created {
        return Ok(TxnResponse(rev, false, []));
      }
      res := Ok(TxnResponse(rev, true, [PutDone(rev, None)]));
    }

    method Update(txn: TxnRequest, others: seq<seq<Step>>) returns (resp: TxnResponse)
      requires backend.d.Valid() && |others| == READ_GAPS && IsUpdate(txn) && ClientKey(txn.compare[0].key)
      requires Interleaved(Written(backend.d.World(), txn), others)
      modifies backend.d
      ensures var w := old(backend.d.World());
              var w' := Written(w, txn);
              && backend.d.Valid() && backend.d.World() == WorldAt(w', others, READ_GAPS)
              && resp == Answer(w, WorldAt(w', others, 1), ReadAt(w', others), txn)
    {
      hide Inv, Live, LiveAtRevision, ClientKey, Apply, WorldAt, Interleaved, Swaps, Passes, MaxId, FirstOf,
           RevisionRead;
      ghost var w := backend.d.World();
      ghost var w' := Written(w, txn);
      ShapesDiffer(txn);
      StepSwaps(w, txn);
      FirstWorld(w', others);
      var expected, key, put := txn.compare[0].modRevision, txn.compare[0].key, txn.success[0];
      var rev, succeeded, err;
      if expected == 0 {
        rev, succeeded, err := backend.d.Create(key, put.value, put.lease);
      } else {
        rev, succeeded, err := backend.d.Update(key, put.value, expected, put.lease);
      }
      resp := TxnResponse(rev, succeeded, []);
      if succeeded {
        resp := resp.(responses := [PutDone(rev, None)]);
        backend.d.Rest(w', others, 0);
      } else {
        ReadIsFetched(w', others, key);
        backend.d.Others(others[0]);
        var kv;
        rev, kv := backend.Get(key, 1, rev, others[1..]);
        resp := resp.(responses := [RangeDone(rev, Entry(kv), false, 0)]);
      }
    }

    method Delete(txn: TxnRequest, others: seq<seq<Step>>) returns (resp: TxnResponse)
      requires backend.d.Valid() && |others| == READ_GAPS && IsDelete(txn) && ClientKey(txn.success[0].key)
      requires Interleaved(Written(backend.d.World(), txn), others)
      modifies backend.d
      ensures var w := old(backend.d.World());
              var w' := Written(w, txn);
              && backend.d.Valid() && backend.d.World() == WorldAt(w', others, READ_GAPS)
              && resp == Answer(w, WorldAt(w', others, 1), ReadAt(w', others), txn)
    {
      hide Inv, Live, LiveAtRevision, ClientKey, Apply, WorldAt, Interleaved, Swaps, Passes, MaxId, FirstOf,
           RevisionRead;
      ghost var w := backend.d.World();
      ghost var w' := Written(w, txn);
      ShapesDiffer(txn);
      StepSwaps(w, txn);
      FirstWorld(w', others);
      var key := txn.success[0].key;
      var rev, deleted, _ := backend.d.Delete(key, txn.compare[0].modRevision);
      resp := TxnResponse(rev, deleted, []);
      if deleted {
        resp := resp.(responses := [DeleteDone(rev, 0, [])]);
        backend.d.Rest(w', others, 0);
      } else {
        ReadIsFetched(w', others, key);
        backend.d.Others(others[0]);
        var now, kv := backend.Get(key, 1, rev, others[1..]);
        resp := resp.(responses := [RangeDone(now, Entry(kv), false, 0)]);
      }
    }
  }

  /** A read-back finds what the history has when its row is read. */
  lemma ReadIsFetched(w: World, others: seq<seq<Step>>, key: string)
    requires Inv(w) && Interleaved(w, others) && |others| == READ_GAPS
    ensures var asked := WorldAt(w, others, 1);
            && WorldAt(w, others, 0) == w && asked == Run(w, others[0]) && ValidRun(w, others[0])
            && Interleaved(asked, others[1..]) && WorldAt(asked, others[1..], 2) == WorldAt(w, others, READ_GAPS)
            && Entry(FirstOf(asked.db.rows, key, MaxId(asked.db))) == Fetched(asked, key)
  {
    hide Inv, FirstOf;
    FirstWorld(w, others);
    SuffixOf(w, others, 1);
    WorldsAreLater(w, others, 1, 1);
    FetchedIsFirst(WorldAt(w, others, 1), key);
  }

  /** The two parts of what others do during a list. */
  lemma PartsOf(w: World, others: seq<seq<Step>>)
    requires Interleaved(w, others) && |others| == RANGE_GAPS
    ensures Interleaved(w, others[..LIST_GAPS])
    ensures WorldAt(w, others[..LIST_GAPS], LIST_GAPS) == WorldAt(w, others, LIST_GAPS)
    ensures var counted := WorldAt(w, others, LIST_GAPS + 1);
            && counted == Run(WorldAt(w, others, LIST_GAPS), others[LIST_GAPS])
            && ValidRun(WorldAt(w, others, LIST_GAPS), others[LIST_GAPS])
            && Interleaved(counted, others[LIST_GAPS + 1..])
            && WorldAt(counted, others[LIST_GAPS + 1..], 3) == WorldAt(w, others, RANGE_GAPS)
  {
    FirstWorld(w, others);
    assert others[0..LIST_GAPS] == others[..LIST_GAPS];
    WorldAtSlice(w, others, 0, LIST_GAPS, LIST_GAPS);
    InterleavedSlice(w, others, 0, LIST_GAPS);
    SuffixOf(w, others, LIST_GAPS + 1);
  }

  // ---------------------------------------------------------------- the requests of clients, spelled out

  /** The revision that is read with a row in `asked`: the newest when it is read, or once more if there was none. */
  lemma ReadAtIs(w: World, others: seq<seq<Step>>)
    requires Inv(w) && Interleaved(w, others) && |others| == READ_GAPS
    ensures ReadAt(w, others) == if WorldAt(w, others, 2).db.lastId == 0 then WorldAt(w, others, 3).db.lastId
                                 else WorldAt(w, others, 2).db.lastId
    ensures w.db.lastId <= WorldAt(w, others, 1).db.lastId <= ReadAt(w, others)
  {
    hide Inv, Later, WorldAt, Interleaved, MaxId;
    FirstWorld(w, others);
    SuffixOf(w, others, 1);
    assert others[1..][0..] == others[1..];
    WorldAtSlice(w, others, 1, |others|, 2);
    assert others[1..|others|] == others[1..];
    WorldsAreLater(w, others, 0, 1);
    WorldsAreLater(w, others, 1, 2);
    LaterFacts(w, WorldAt(w, others, 1));
    RevisionIsLater(WorldAt(w, others, 1), others[1..]);
  }

  /** Create: an absent key is set at the next revision, a present one is left, and the answer says which. */
  lemma CreateRequest(w: World, others: seq<seq<Step>>, key: string, value: Blob, lease: int)
    requires Inv(w) && ClientKey(key) && |others| == READ_GAPS
    ensures var txn := TxnRequest([Compare(Mod, Equal, key, 0)], [Put(key, value, lease, false, false, false)], []);
            var w', n := Written(w, txn), w.db.lastId + 1;
            if Current(w, key).None?
            then TxnAnswer(w, others, txn) == Ok(TxnResponse(n, true, [PutDone(n, None)]))
                 && w'.db.lastId == n && Sets(w, w', key, Some(KeyValue(key, n, n, value, lease)))
            else TxnAnswer(w, others, txn) == Ok(TxnResponse(0, false, [])) && w' == w
  {
    hide Inv, Current, Sets, Apply, WorldAt, ReadAt;
    var txn := TxnRequest([Compare(Mod, Equal, key, 0)], [Put(key, value, lease, false, false, false)], []);
    StepSwaps(w, txn);
    AbsentIsZero(w, key);
  }

  /** Update: the key is replaced exactly if it is at the revision, 0 meaning absent; else the answer is what a get of
    the key finds when it is read, and the revision of a later moment. */
  lemma UpdateRequest(w: World, others: seq<seq<Step>>, key: string, rev: nat, value: Blob, lease: int, r: RangeRequest)
    requires Inv(w) && ClientKey(key) && |others| == READ_GAPS
    ensures var put := Put(key, value, lease, false, false, false);
            var txn := TxnRequest([Compare(Mod, Equal, key, rev)], [put], [Range(r)]);
            var w', n := Written(w, txn), w.db.lastId + 1;
            var birth := match Current(w, key) { case Some(kv) => kv.createRevision case None => n };
            if ModRevision(w, key) == rev
            then TxnAnswer(w, others, txn) == Ok(TxnResponse(n, true, [PutDone(n, None)]))
                 && w'.db.lastId == n && Sets(w, w', key, Some(KeyValue(key, birth, n, value, lease)))
            else w' == w
                 && TxnAnswer(w, others, txn)
                    == Ok(TxnResponse(0, false, [RangeDone(ReadAt(w, others), ReadBack(w, others, key), false, 0)]))
  {
    hide Inv, Current, Sets, Apply, WorldAt, ReadAt, Fetched;
    var txn := TxnRequest([Compare(Mod, Equal, key, rev)], [Put(key, value, lease, false, false, false)], [Range(r)]);
    StepSwaps(w, txn);
    AbsentIsZero(w, key);
  }

  /** Delete: the key goes exactly if it is at the revision, which must be one; else as for an update. */
  lemma DeleteRequest(w: World, others: seq<seq<Step>>, key: string, rev: nat, rangeEnd: string, prevKv: bool,
                      r: RangeRequest)
    requires Inv(w) && ClientKey(key) && |others| == READ_GAPS
    ensures var txn := TxnRequest([Compare(Mod, Equal, key, rev)], [DeleteRange(key, rangeEnd, prevKv)], [Range(r)]);
            var w', n := Written(w, txn), w.db.lastId + 1;
            if rev > 0 && ModRevision(w, key) == rev
            then TxnAnswer(w, others, txn) == Ok(TxnResponse(n, true, [DeleteDone(n, 0, [])]))
                 && w'.db.lastId == n && Sets(w, w', key, None)
            else w' == w
                 && TxnAnswer(w, others, txn)
                    == Ok(TxnResponse(0, false, [RangeDone(ReadAt(w, others), ReadBack(w, others, key), false, 0)]))
  {
    hide Inv, Current, Sets, Apply, WorldAt, ReadAt, Fetched;
    var txn := TxnRequest([Compare(Mod, Equal, key, rev)], [DeleteRange(key, rangeEnd, prevKv)], [Range(r)]);
    StepSwaps(w, txn);
    AbsentIsZero(w, key);
  }

  /** What a failed swap reads back: the key's entry after others have acted, if it is no directory or is there. */
  function ReadBack(w: World, others: seq<seq<Step>>, key: string): seq<KeyValue>
    requires |others| == READ_GAPS
  {
    Fetched(WorldAt(w, others, 1), key)
  }

  lemma ReadBackIs(w: World, others: seq<seq<Step>>, key: string)
    requires Inv(w) && Interleaved(w, others) && |others| == READ_GAPS
    ensures var asked := WorldAt(w, others, 1);
            !EndsWithSlash(key) || Current(asked, key).Some? ==> ReadBack(w, others, key) == Entry(Current(asked, key))
  {
    hide Inv, VisibleAt, FirstOf, WorldAt, Interleaved;
    WorldsAreLater(w, others, 1, 1);
    var asked := WorldAt(w, others, 1);
    HistoryNamesNulFree(asked);
    FirstIsVisible(asked.hist, key, asked.db.lastId);
    CurrentIsHeld(asked, key);
  }

  /** The API server's compaction, whatever it puts: the comparison is said to have failed, one entry comes back, and
    nothing is done. */
  lemma CompactionRequest(w: World, others: seq<seq<Step>>, version: nat, put: Op, r: RangeRequest)
    requires |others| == READ_GAPS && put.Put?
    ensures var txn := TxnRequest([Compare(Version, Equal, "compact_rev_key", version)], [put], [Range(r)]);
            var answer := TxnAnswer(w, others, txn);
            && Written(w, txn) == w
            && answer == Ok(TxnResponse(0, false, [RangeDone(0, [KeyValue("", 0, 0, None, 0)], false, 1)]))
  {
  }

  /** Nothing else is supported, and nothing else writes: one comparison for equality, of a mod revision or of the
    version of the compaction key; one put without failure branch or flags if the key must be absent, one put
    or delete with a range for a failure branch, and for the compaction a put. */
  lemma OnlyTheseAreSupported(w: World, others: seq<seq<Step>>, txn: TxnRequest)
    requires |others| == READ_GAPS
    ensures TxnAnswer(w, others, txn).Err? ==> TxnAnswer(w, others, txn) == Err(Unsupported) && Written(w, txn) == w
    ensures TxnAnswer(w, others, txn).Ok?
       <==> && |txn.compare| == |txn.success| == 1 && |txn.failure| <= 1
            && (|txn.failure| == 1 ==> txn.failure[0].Range?)
            && var cmp, op := txn.compare[0], txn.success[0];
               && cmp.result == Equal
               && match cmp.target
                  case Mod =>
                    if |txn.failure| == 1 then op.Put? || op.DeleteRange?
                    else cmp.modRevision == 0 && op == Put(OpKey(op), OpValue(op), OpLease(op), false, false, false)
                  case Version => cmp.key == "compact_rev_key" && op.Put? && |txn.failure| == 1
                  case _ => false
  {
  }

  function OpKey(op: Op): string {
    match op
    case Put(key, _, _, _, _, _) => key
    case DeleteRange(key, _, _) => key
    case Range(request) => request.key
    case Nested => ""
  }

  function OpValue(op: Op): Blob {
    if op.Put? then op.value else None
  }

  function OpLease(op: Op): int {
    if op.Put? then op.lease else 0
  }
}
