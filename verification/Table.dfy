/** The kine table and the SQL statements that change it, each one a function from
  a table to a table. Ids are nat; int64 overflow is not modelled. */
module Table {
  import opened Keys

  datatype Option<+T> = None | Some(value: T)

  type Blob = Option<string>

  datatype Row = Row(
    name: string, created: bool, deleted: bool,
    createRevision: nat, prevRevision: nat,
    lease: int, value: Blob, oldValue: Blob)

  type Rows = map<nat, Row>

  /** `lastId` is the AUTOINCREMENT counter: the largest id ever handed out. */
  datatype Db = Db(rows: Rows, lastId: nat)

  const EMPTY: Db := Db(map[], 0)

  /** What an INSERT reports: the new id, "0 rows affected", or a constraint error. */
  datatype ExecResult = Inserted(id: nat) | NoRows | Violation

  function Max(a: nat, b: nat): nat {
    if a < b then b else a
  }

  function Min(a: nat, b: nat): nat {
    if a < b then a else b
  }

  lemma {:induction false} MaxExists(s: set<nat>)
    requires s != {}
    ensures exists m :: m in s && forall x :: x in s ==> x <= m
    decreases |s|
  {
    var x :| x in s;
    var rest := s - {x};
    if rest == {} {
      assert s == {x};
    } else {
      MaxExists(rest);
      var m :| m in rest && forall y :: y in rest ==> y <= m;
      assert forall y :: y in s ==> y == x || y in rest;
      assert (if x > m then x else m) in s;
    }
  }

  /** COALESCE(MAX(...), 0) over a set of ids. */
  function MaxOf(s: set<nat>): (m: nat)
    ensures s == {} ==> m == 0
    ensures s != {} ==> m in s
    ensures forall x :: x in s ==> x <= m
  {
    if s == {} then 0
    else
      MaxExists(s);
      var m :| m in s && forall x :: x in s ==> x <= m;
      m
  }

  function IdsOf(rows: Rows, name: string): set<nat> {
    set i | i in rows && rows[i].name == name
  }

  /** MAX(id) of a name, 0 when it has no row. */
  function Latest(rows: Rows, name: string): nat {
    MaxOf(IdsOf(rows, name))
  }

  /** MAX(id) of a name among the ids up to r, 0 when there is none. */
  function LatestAt(rows: Rows, name: string, r: nat): (m: nat)
    ensures m != 0 ==> m in rows && rows[m].name == name && m <= r
    ensures forall i :: i in rows && rows[i].name == name && i <= r ==> i <= m
  {
    var ids := set i | i in rows && rows[i].name == name && i <= r;
    assert forall i :: i in rows && rows[i].name == name && i <= r ==> i in ids;
    MaxOf(ids)
  }

  function MaxId(db: Db): nat {
    MaxOf(db.rows.Keys)
  }

  /** Low half of revisionIntervalSQL. */
  function CompactRevision(rows: Rows): nat {
    MaxOf(set i | i in rows && rows[i].name == COMPACT_KEY :: rows[i].prevRevision)
  }

  predicate HasCompactKey(rows: Rows) {
    exists i :: i in rows && rows[i].name == COMPACT_KEY
  }

  /** The unique index on (prev_revision, name). */
  predicate IndexTaken(rows: Rows, row: Row) {
    exists i :: i in rows && rows[i].name == row.name && rows[i].prevRevision == row.prevRevision
  }

  function InsertAt(db: Db, id: nat, row: Row): (r: (Db, ExecResult))
    ensures r.1.Inserted? ==> r.1.id !in db.rows && r.1.id in r.0.rows && r.0.lastId >= r.1.id
    ensures !r.1.Inserted? ==> r.0 == db
  {
    if id in db.rows || IndexTaken(db.rows, row) then (db, Violation)
    else (Db(db.rows[id := row], if id > db.lastId then id else db.lastId), Inserted(id))
  }

  function Insert(db: Db, row: Row): (Db, ExecResult) {
    InsertAt(db, db.lastId + 1, row)
  }

  function CreateSql(db: Db, key: string, value: Blob, lease: int): (Db, ExecResult) {
    var ids := IdsOf(db.rows, key);
    if ids == {} || db.rows[MaxOf(ids)].deleted
    then Insert(db, Row(key, true, false, 0, MaxOf(ids), lease, value, None))
    else (db, NoRows)
  }

  /** CASE WHEN created THEN id ELSE create_revision END. */
  function BirthColumn(id: nat, row: Row): nat {
    if row.created then id else row.createRevision
  }

  predicate CurrentIs(rows: Rows, key: string, rev: nat) {
    var ids := IdsOf(rows, key);
    ids != {} && MaxOf(ids) == rev && !rows[rev].deleted
  }

  function UpdateSql(db: Db, key: string, value: Blob, rev: nat, lease: int): (Db, ExecResult) {
    if CurrentIs(db.rows, key, rev)
    then Insert(db, Row(key, false, false, BirthColumn(rev, db.rows[rev]), rev, lease, value, db.rows[rev].value))
    else (db, NoRows)
  }

  function DeleteSql(db: Db, key: string, rev: nat): (Db, ExecResult) {
    if CurrentIs(db.rows, key, rev)
    then var cur := db.rows[rev];
         Insert(db, Row(cur.name, false, true, BirthColumn(rev, cur), rev, cur.lease, None, cur.value))
    else (db, NoRows)
  }

  function FillRow(id: nat): Row {
    Row(FillName(id), false, true, 0, 0, 0, None, None)
  }

  function FillSql(db: Db, id: nat): (Db, ExecResult) {
    InsertAt(db, id, FillRow(id))
  }

  /** First DELETE of tryCompact: the rows superseded by a row of the window. */
  function Superseded(rows: Rows, start: nat, end: nat): set<nat> {
    set i | i in rows && rows[i].name != COMPACT_KEY && !rows[i].created
            && rows[i].prevRevision != 0 && start < i <= end :: rows[i].prevRevision
  }

  /** Second DELETE of tryCompact: the tombstones of the window. */
  function Tombstones(rows: Rows, start: nat, end: nat): set<nat> {
    set i | i in rows && rows[i].deleted && start < i <= end
  }

  /** UpdateCompactSQL. */
  function RecordCompact(rows: Rows, end: nat): Rows {
    map i | i in rows ::
      if rows[i].name == COMPACT_KEY
      then rows[i].(prevRevision := if rows[i].prevRevision < end then end else rows[i].prevRevision)
      else rows[i]
  }

  /** The committed tryCompact transaction. */
  function TryCompact(db: Db, start: nat, end: nat): Db {
    var rows := db.rows - Superseded(db.rows, start, end);
    var rows := rows - Tombstones(rows, start, end);
    db.(rows := RecordCompact(rows, end))
  }

  datatype KeyValue = KeyValue(key: string, createRevision: nat, modRevision: nat, value: Blob, lease: int)

  datatype Event = Event(delete: bool, create: bool, kv: KeyValue, prevKv: Option<KeyValue>)

  /** How a selected row becomes an event. */
  function Scan(id: nat, row: Row): Event {
    var kv := KeyValue(row.name, BirthColumn(id, row), id, row.value, row.lease);
    Event(row.deleted, row.created, kv,
          if row.created then None
          else Some(KeyValue(row.name, row.createRevision, row.prevRevision, row.oldValue, row.lease)))
  }
}
