/** The event that a watcher gets for a write, in terms of what the key held before and holds after. */
module Events {
  import opened Keys
  import opened Table
  import opened History
  import opened Writes
  import opened Snapshots
  import opened Queries
  import opened Cas
  import opened Watch

  /** The wanted events of one revision are that of its row. */
  lemma OneWanted(h: Rows, prefix: string, n: nat)
    requires n > 0 && n in h && Matches(h[n].name, prefix)
    ensures Wanted(h, prefix, n - 1, n, {}) == [Scan(n, h[n])]
  {
    hide Matches;
    var ids := OrderedBetween(MatchIds(h, prefix) - {}, n - 1, n);
    assert OrderedBetween(MatchIds(h, prefix) - {}, n - 1, n - 1) == [];
    assert ids == [n];
  }

  /** A create is told as a put of what the key holds from then on, with nothing before it. */
  lemma CreateIsTold(w: World, key: string, value: Blob, lease: int, prefix: string)
    requires Inv(w) && ClientKey(key) && Matches(key, prefix) && Current(w, key).None?
    ensures var w', n := Apply(w, Create(key, value, lease)), w.db.lastId + 1;
            && Current(w', key).Some?
            && Wanted(w'.hist, prefix, n - 1, n, {}) == [Event(false, true, Current(w', key).value, None)]
  {
    hide Inv, Live, Matches, Wanted, Current;
    LiveIsCurrent(w, key, 0);
    CreateKeepsInv(w, key, value, lease);
    CreateIsCas(w, key, value, lease);
    WrittenRow(w, Create(key, value, lease));
    OneWanted(Apply(w, Create(key, value, lease)).hist, prefix, w.db.lastId + 1);
  }

  /** An update is told as a put of what the key holds from then on, and what it held before. */
  lemma UpdateIsTold(w: World, key: string, value: Blob, rev: nat, lease: int, prefix: string)
    requires Inv(w) && ClientKey(key) && Matches(key, prefix) && rev > 0 && ModRevision(w, key) == rev
    ensures var w', n := Apply(w, Update(key, value, rev, lease)), w.db.lastId + 1;
            && Current(w, key).Some? && Current(w', key).Some?
            && Wanted(w'.hist, prefix, n - 1, n, {})
               == [Event(false, false, Current(w', key).value, Some(Current(w, key).value.(lease := lease)))]
  {
    hide Inv, Live, LiveAtRevision, Matches, Wanted, CurrentIs, VisibleAt;
    LiveIsCurrent(w, key, rev);
    UpdateKeepsInv(w, key, value, rev, lease);
    UpdateIsCas(w, key, value, rev, lease);
    CurrentRow(w, key, rev);
    WrittenRow(w, Update(key, value, rev, lease));
    OneWanted(Apply(w, Update(key, value, rev, lease)).hist, prefix, w.db.lastId + 1);
  }

  /** A delete is told as one, of the incarnation that ends, with what the key held before. */
  lemma DeleteIsTold(w: World, key: string, rev: nat, prefix: string)
    requires Inv(w) && ClientKey(key) && Matches(key, prefix) && rev > 0 && ModRevision(w, key) == rev
    ensures var w', n := Apply(w, Delete(key, rev)), w.db.lastId + 1;
            && Current(w, key).Some? && Current(w', key).None?
            && var kv := Current(w, key).value;
               Wanted(w'.hist, prefix, n - 1, n, {})
               == [Event(true, false, KeyValue(key, kv.createRevision, n, None, kv.lease), Some(kv))]
  {
    hide Inv, Live, LiveAtRevision, Matches, Wanted, CurrentIs, VisibleAt;
    LiveIsCurrent(w, key, rev);
    DeleteKeepsInv(w, key, rev);
    DeleteIsCas(w, key, rev);
    CurrentRow(w, key, rev);
    WrittenRow(w, Delete(key, rev));
    OneWanted(Apply(w, Delete(key, rev)).hist, prefix, w.db.lastId + 1);
  }

  /** A write that succeeds leaves its row in the history. */
  lemma WrittenRow(w: World, s: Step)
    requires Exec(w.db, s).1.Inserted? && !s.Fill?
    ensures var n := Exec(w.db, s).1.id;
            n in Apply(w, s).hist && Apply(w, s).hist[n] == Exec(w.db, s).0.rows[n]
  {
  }
}
