/** The SQL driver: the object whose methods run the statements on the table it owns. The ghost
  history lets every method say which step of the shared state machine it took. */
module Driver {
  import opened Keys
  import opened Table
  import opened History
  import opened Writes
  import opened Runs

  datatype Error = KeyExists | Compacted

  class Generic {
    var rows: Rows
    var lastId: nat
    ghost var hist: Rows

    function View(): Db
      reads this
    {
      Db(rows, lastId)
    }

    ghost function World(): World
      reads this
    {
      History.World(View(), hist)
    }

    ghost predicate Valid()
      reads this
    {
      Inv(World())
    }

    constructor ()
      ensures World() == INIT && Valid()
    {
      rows, lastId, hist := map[], 0, map[];
      new;
      InitInv();
    }

    /** One INSERT statement: what it reports, and the row it may leave behind. */
    method Insert(s: Step) returns (rev: nat, done: bool, err: Option<Error>)
      modifies this
      ensures World() == Apply(old(World()), s)
      ensures var res := Exec(old(View()), s).1;
              && done == res.Inserted?
              && rev == (if res.Inserted? then res.id else 0)
              && err == (if res.Violation? then Some(KeyExists) else None)
    {
      var (db, res) := Exec(View(), s);
      rows, lastId := db.rows, db.lastId;
      if res.Inserted? && !s.Fill? { hist := hist[res.id := rows[res.id]]; }
      match res
      case Inserted(id) => rev, done, err := id, true, None;
      case NoRows => rev, done, err := 0, false, None;
      case Violation => rev, done, err := 0, false, Some(KeyExists);
    }

    method Create(key: string, value: Blob, ttl: int) returns (rev: nat, succeeded: bool, err: Option<Error>)
      modifies this
      ensures World() == Apply(old(World()), History.Create(key, value, ttl))
      ensures old(Valid()) && ClientKey(key) ==>
                && Valid() && err == None
                && succeeded == !Live(old(World()), key)
                && rev == (if succeeded then old(lastId) + 1 else 0)
    {
      hide Inv, CreateSql, UpdateSql, DeleteSql, FillSql, Live, LiveAtRevision;
      rev, succeeded, err := Insert(History.Create(key, value, ttl));
      if old(Valid()) && ClientKey(key) {
        CreateKeepsInv(old(World()), key, value, ttl);
      }
    }

    method Update(key: string, value: Blob, preRev: nat, ttl: int) returns (rev: nat, updated: bool, err: Option<Error>)
      modifies this
      ensures World() == Apply(old(World()), History.Update(key, value, preRev, ttl))
      ensures old(Valid()) && ClientKey(key) ==>
                && Valid() && err == None
                && updated == LiveAtRevision(old(World()), key, preRev)
                && rev == (if updated then old(lastId) + 1 else 0)
    {
      hide Inv, CreateSql, UpdateSql, DeleteSql, FillSql, Live, LiveAtRevision;
      rev, updated, err := Insert(History.Update(key, value, preRev, ttl));
      if old(Valid()) && ClientKey(key) {
        UpdateKeepsInv(old(World()), key, value, preRev, ttl);
      }
    }

    method Delete(key: string, revision: nat) returns (rev: nat, deleted: bool, err: Option<Error>)
      modifies this
      ensures World() == Apply(old(World()), History.Delete(key, revision))
      ensures old(Valid()) && ClientKey(key) ==>
                && Valid() && err == None
                && deleted == LiveAtRevision(old(World()), key, revision)
                && rev == (if deleted then old(lastId) + 1 else 0)
    {
      hide Inv, CreateSql, UpdateSql, DeleteSql, FillSql, Live, LiveAtRevision;
      rev, deleted, err := Insert(History.Delete(key, revision));
      if old(Valid()) && ClientKey(key) {
        DeleteKeepsInv(old(World()), key, revision);
      }
    }

    method Fill(revision: nat) returns (err: Option<Error>)
      modifies this
      ensures World() == Apply(old(World()), History.Fill(revision))
      ensures old(Valid()) && 1 <= revision <= old(lastId) ==>
                Valid() && (err == None <==> revision !in old(rows))
    {
      hide Inv, CreateSql, UpdateSql, DeleteSql, FillSql, Live, LiveAtRevision;
      var _, _, e := Insert(History.Fill(revision));
      err := e;
      if old(Valid()) && 1 <= revision <= old(lastId) {
        FillKeepsInv(old(World()), revision);
      }
    }

    /** What other clients, pollers and compactors do between two statements of a caller. */
    method Others(steps: seq<Step>)
      requires Valid() && ValidRun(World(), steps)
      modifies this
      ensures World() == Run(old(World()), steps) && Valid()
    {
      hide Inv, Apply, Run, ValidRun, Exec;
      ghost var w := World();
      RunIsLater(w, steps);
      NothingRun(w);
      for i := 0 to |steps|
        invariant World() == Run(w, steps[..i])
      {
        assert steps[..i + 1] == steps[..i] + [steps[i]];
        RunAppend(w, steps[..i], [steps[i]]);
        RunFirst(World(), steps[i], []);
        assert [steps[i]] + [] == [steps[i]];
        NothingRun(Apply(World(), steps[i]));
        var _, _, _ := Insert(steps[i]);
      }
      assert steps[..|steps|] == steps;
    }

    /** What others do, of a schedule that may hold steps they cannot take. */
    method Schedule(steps: seq<Step>)
      requires Valid()
      modifies this
      ensures World() == Meanwhile(old(World()), steps) && Valid()
    {
      FeasibleIsValid(World(), steps);
      Others(Feasible(View(), steps));
    }

    /** The rest of what others do while a call lasts. */
    method Rest(ghost w: World, others: seq<seq<Step>>, done: nat)
      requires Inv(w) && Interleaved(w, others) && done <= |others| && World() == WorldAt(w, others, done)
      modifies this
      ensures World() == WorldAt(w, others, |others|) && Valid()
    {
      hide Inv, Run, ValidRun;
      WorldsAreLater(w, others, done, |others|);
      for i := done to |others|
        invariant World() == WorldAt(w, others, i)
      {
        WorldsAreLater(w, others, i, i);
        Others(others[i]);
      }
    }

    method GetCompactRevision() returns (compact: nat, target: nat)
      ensures compact == World().Compacted() && target == MaxId(View())
    {
      compact, target := CompactRevision(rows), MaxId(View());
    }

    /** The three statements of the compaction transaction, in order. */
    method TryCompact(start: nat, end: nat)
      modifies this
      ensures World() == Apply(old(World()), History.Compact(start, end))
    {
      rows := rows - Superseded(rows, start, end);
      rows := rows - Tombstones(rows, start, end);
      rows := RecordCompact(rows, end);
    }

    /** Compacts to a revision from wherever the table says the last compaction ended, unless that is far enough.
      Others may act between reading this and the transaction. */
    method Compact(revision: nat, others: seq<Step>)
      requires Valid()
      modifies this
      ensures var w := old(World());
              var end := if revision > MaxId(w.db) then MaxId(w.db) else revision;
              World() == if w.Compacted() >= revision then w
                         else Apply(Meanwhile(w, others), History.Compact(w.Compacted(), end))
    {
      hide Inv, Apply, Runs.Meanwhile, MaxId, CompactRevision;
      var compactStart, currentRevision := GetCompactRevision();
      if compactStart >= revision {
        return;
      }
      var end := revision;
      if end > currentRevision {
        end := currentRevision;
      }
      Schedule(others);
      TryCompact(compactStart, end);
    }
  }
}
