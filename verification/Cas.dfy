/** The table as a key-value map with compare-and-swap. */
module Cas {
  import opened Keys
  import opened Table
  import opened History
  import opened Writes
  import opened Runs
  import opened Snapshots

  /** The abstract map: what a key holds now, by the history alone. */
  function Current(w: World, key: string): Option<KeyValue> {
    match VisibleAt(w.hist, key, w.db.lastId)
    case Some(e) => Some(e.kv)
    case None => None
  }

  /** etcd's mod revision of a key: 0 when it is absent. */
  function ModRevision(w: World, key: string): nat {
    match Current(w, key)
    case Some(kv) => kv.modRevision
    case None => 0
  }

  lemma LiveIsCurrent(w: World, key: string, rev: nat)
    requires Inv(w)
    ensures Live(w, key) <==> Current(w, key).Some?
    ensures LiveAtRevision(w, key, rev) <==> Live(w, key) && ModRevision(w, key) == rev
    ensures LiveAtRevision(w, key, rev) ==> rev > 0
    ensures Live(w, key) ==> 0 < ModRevision(w, key) <= w.db.lastId
  {
  }

  /** Appending a row sets its key and no other. */
  lemma AppendSetsKey(w: World, row: Row, name: string)
    requires Inv(w)
    ensures var n := w.db.lastId + 1;
            var now := VisibleAt(w.hist[n := row], name, n);
            if name == row.name
            then now == (if row.deleted then None else Some(Scan(n, row)))
            else now == VisibleAt(w.hist, name, w.db.lastId)
  {
    var n := w.db.lastId + 1;
    var h' := w.hist[n := row];
    if name == row.name {
      assert n in h' && h'[n].name == name;
    } else {
      var a, b := LatestAt(w.hist, name, w.db.lastId), LatestAt(h', name, n);
      assert b != 0 ==> b in w.hist;
      assert a != 0 ==> a in h';
    }
  }

  /** The map after a step, read off the map before it. */
  ghost predicate Sets(w: World, w': World, key: string, kv: Option<KeyValue>) {
    && Current(w', key) == kv
    && (forall other :: other != key ==> Current(w', other) == Current(w, other))
  }

  lemma InsertSets(w: World, row: Row, w': World)
    requires Inv(w) && w'.db.lastId == w.db.lastId + 1 && w'.hist == w.hist[w.db.lastId + 1 := row]
    ensures Sets(w, w', row.name, if row.deleted then None else Some(Scan(w.db.lastId + 1, row).kv))
  {
    hide Inv, VisibleAt;
    AppendSetsKey(w, row, row.name);
    forall other | other != row.name
      ensures Current(w', other) == Current(w, other)
    {
      AppendSetsKey(w, row, other);
    }
  }

  /** Create sets an absent key, and changes nothing when the key is there. */
  lemma CreateIsCas(w: World, key: string, value: Blob, lease: int)
    requires Inv(w) && ClientKey(key)
    ensures var w', res, n := Apply(w, Create(key, value, lease)),
                            CreateSql(w.db, key, value, lease).1, w.db.lastId + 1;
            if Current(w, key).None?
            then res == Inserted(n) && Sets(w, w', key, Some(KeyValue(key, n, n, value, lease)))
            else res == NoRows && w' == w
  {
    hide Inv, Sets, Live, VisibleAt;
    LiveIsCurrent(w, key, 0);
    CreateKeepsInv(w, key, value, lease);
    if !Live(w, key) {
      InsertSets(w, Row(key, true, false, 0, Latest(w.db.rows, key), lease, value, None),
                 Apply(w, Create(key, value, lease)));
    }
  }

  lemma CurrentRow(w: World, key: string, rev: nat)
    requires Inv(w) && ClientKey(key) && LiveAtRevision(w, key, rev)
    ensures rev in w.db.rows && CurrentIs(w.db.rows, key, rev) && w.db.rows[rev].name == key
    ensures Current(w, key) == Some(Scan(rev, w.db.rows[rev]).kv)
  {
    CurrentIsLive(w, key, rev);
    assert rev in IdsOf(w.db.rows, key);
  }

  /** Update replaces the value exactly when the key is at the expected revision, and keeps its
    create revision. */
  lemma UpdateIsCas(w: World, key: string, value: Blob, rev: nat, lease: int)
    requires Inv(w) && ClientKey(key)
    ensures var w', res, n := Apply(w, Update(key, value, rev, lease)),
                            UpdateSql(w.db, key, value, rev, lease).1, w.db.lastId + 1;
            if rev > 0 && ModRevision(w, key) == rev
            then res == Inserted(n)
                 && Sets(w, w', key, Some(KeyValue(key, Current(w, key).value.createRevision, n, value, lease)))
            else res == NoRows && w' == w
  {
    hide Inv, Sets, Live, VisibleAt, LiveAtRevision, CurrentIs;
    LiveIsCurrent(w, key, rev);
    UpdateKeepsInv(w, key, value, rev, lease);
    if LiveAtRevision(w, key, rev) {
      CurrentRow(w, key, rev);
      var cur := w.db.rows[rev];
      InsertSets(w, Row(key, false, false, BirthColumn(rev, cur), rev, lease, value, cur.value),
                 Apply(w, Update(key, value, rev, lease)));
    }
  }

  /** Delete removes the key exactly when it is at the expected revision. */
  lemma DeleteIsCas(w: World, key: string, rev: nat)
    requires Inv(w) && ClientKey(key)
    ensures var w', res, n := Apply(w, Delete(key, rev)), DeleteSql(w.db, key, rev).1, w.db.lastId + 1;
            if rev > 0 && ModRevision(w, key) == rev
            then res == Inserted(n) && Sets(w, w', key, None)
            else res == NoRows && w' == w
  {
    hide Inv, Sets, Live, VisibleAt, LiveAtRevision, CurrentIs;
    LiveIsCurrent(w, key, rev);
    DeleteKeepsInv(w, key, rev);
    if LiveAtRevision(w, key, rev) {
      CurrentRow(w, key, rev);
      var cur := w.db.rows[rev];
      InsertSets(w, Row(key, false, true, BirthColumn(rev, cur), rev, cur.lease, None, cur.value),
                 Apply(w, Delete(key, rev)));
    }
  }

  /** Compactions, fills and the bookkeeping write leave every client key as it was. */
  lemma HousekeepingKeepsMap(w: World, s: Step, key: string)
    requires Inv(w) && Enabled(w, s) && (s.Fill? || s.Compact? || s.CompactStart?) && key != COMPACT_KEY
    ensures Current(Apply(w, s), key) == Current(w, key)
  {
    hide Inv, VisibleAt;
    StepOutcome(w, s);
    var w', n := Apply(w, s), w.db.lastId + 1;
    if w'.hist != w.hist || w'.db.lastId != w.db.lastId {
      assert s.CompactStart?;
      AppendSetsKey(w, w'.db.rows[n], key);
    }
  }

  // ---------------------------------------------------------------- over whole runs

  /** The step writes only if the key is at that revision. */
  predicate ConditionedOn(s: Step, key: string, rev: nat) {
    match s
    case Update(k, _, r, _) => k == key && r == rev
    case Delete(k, r) => k == key && r == rev
    case _ => false
  }

  predicate Succeeds(w: World, s: Step) {
    Exec(w.db, s).1.Inserted?
  }

  lemma VersionIsNamed(db: Db, s: Step, key: string, rev: nat)
    requires ConditionedOn(s, key, rev) && Exec(db, s).1.Inserted?
    ensures Exec(db, s).0.rows[Exec(db, s).1.id].name == key
  {
    assert rev in IdsOf(db.rows, key);
  }

  lemma ConditionedSucceeds(w: World, s: Step, key: string, rev: nat)
    requires Inv(w) && Enabled(w, s) && ConditionedOn(s, key, rev)
    ensures Succeeds(w, s) <==> LiveAtRevision(w, key, rev)
    ensures Succeeds(w, s) ==> LatestAt(Apply(w, s).hist, key, Apply(w, s).db.lastId) > rev
  {
    hide Inv, CurrentIs;
    match s {
      case Update(_, value, _, lease) => UpdateKeepsInv(w, key, value, rev, lease);
      case Delete(_, _) => DeleteKeepsInv(w, key, rev);
    }
    if Succeeds(w, s) {
      VersionIsNamed(w.db, s, key, rev);
      assert Apply(w, s).hist[w.db.lastId + 1].name == key;
    }
  }

  lemma MovedOnStays(w: World, w': World, key: string, rev: nat)
    requires Inv(w) && Inv(w') && Later(w, w') && LatestAt(w.hist, key, w.db.lastId) > rev
    ensures !LiveAtRevision(w', key, rev)
  {
    var m := LatestAt(w.hist, key, w.db.lastId);
    assert m in w'.hist && w'.hist[m].name == key;
  }

  lemma {:induction false} ValidPrefix(w: World, steps: seq<Step>, i: nat)
    requires ValidRun(w, steps) && i <= |steps|
    ensures ValidRun(w, steps[..i]) && ValidRun(Run(w, steps[..i]), steps[i..])
    ensures Run(Run(w, steps[..i]), steps[i..]) == Run(w, steps)
    decreases |steps|
  {
    if i == 0 {
      assert steps[i..] == steps;
    } else {
      ValidPrefix(Apply(w, steps[0]), steps[1..], i - 1);
      assert steps[..i][1..] == steps[1..][..i - 1];
      assert steps[1..][i - 1..] == steps[i..];
    }
  }

  /** Over any run, compactions included, at most one update or delete conditioned on a given key
    and revision succeeds. */
  lemma AtMostOneSucceeds(steps: seq<Step>, i: nat, j: nat, key: string, rev: nat)
    requires ValidRun(INIT, steps) && i < j < |steps|
    requires ConditionedOn(steps[i], key, rev) && ConditionedOn(steps[j], key, rev)
    requires Succeeds(Run(INIT, steps[..i]), steps[i])
    ensures !Succeeds(Run(INIT, steps[..j]), steps[j])
  {
    hide Inv, Later, Succeeds, LiveAtRevision, Apply;
    var w := Run(INIT, steps[..i]);
    var after := Apply(w, steps[i]);
    ValidPrefix(INIT, steps, i);
    ReachableInv(steps[..i]);
    ApplyIsLater(w, steps[i]);
    ConditionedSucceeds(w, steps[i], key, rev);
    assert steps[i..][0] == steps[i] && steps[i..][1..] == steps[i + 1..];
    var mid := steps[i + 1..][..j - i - 1];
    ValidPrefix(after, steps[i + 1..], j - i - 1);
    RunIsLater(after, mid);
    var w' := Run(after, mid);
    assert w' == Run(INIT, steps[..j]) by { RunSnoc(INIT, steps, i, j); }
    MovedOnStays(after, w', key, rev);
    assert steps[i + 1..][j - i - 1..][0] == steps[j];
    ConditionedSucceeds(w', steps[j], key, rev);
  }

  lemma RunSnoc(w: World, steps: seq<Step>, i: nat, j: nat)
    requires i < j <= |steps|
    ensures Run(Apply(Run(w, steps[..i]), steps[i]), steps[i + 1..][..j - i - 1]) == Run(w, steps[..j])
  {
    hide Run, Apply;
    var rest := steps[i + 1..][..j - i - 1];
    assert steps[..j] == steps[..i] + ([steps[i]] + rest);
    RunAppend(w, steps[..i], [steps[i]] + rest);
    RunFirst(Run(w, steps[..i]), steps[i], rest);
  }

  // ---------------------------------------------------------------- leases

  /** An expiry, scheduled from any event that carried a lease, deletes by that event's revision. */
  function Expiry(e: Event): Step {
    Delete(e.kv.key, e.kv.modRevision)
  }

  /** An expiry that fires changes nothing unless the event is still the key's newest version and
    was not a delete; if it is, the key goes. */
  lemma ExpiryIsSafe(w: World, i: nat)
    requires Inv(w) && i in w.hist && ClientKey(w.hist[i].name)
    ensures var e := Scan(i, w.hist[i]);
            var w' := Apply(w, Expiry(e));
            if !e.delete && LatestAt(w.hist, e.kv.key, w.db.lastId) == i
            then Sets(w, w', e.kv.key, None) && Succeeds(w, Expiry(e))
            else w' == w && !Succeeds(w, Expiry(e))
  {
    hide Inv, Sets, VisibleAt, Apply;
    var key := w.hist[i].name;
    DeleteIsCas(w, key, i);
    LiveIsCurrent(w, key, i);
    WrittenIds(w, i);
  }
}
