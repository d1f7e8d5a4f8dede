/** The read statements: what they select and in which order. */
module Queries {
  import opened Keys
  import opened Table
  import opened History
  import opened Runs

  predicate Ascending(q: seq<nat>) {
    forall i, j :: 0 <= i < j < |q| ==> q[i] < q[j]
  }

  /** The members of s above lo and up to hi, in order. */
  function OrderedBetween(s: set<nat>, lo: nat, hi: nat): (q: seq<nat>)
    ensures forall x :: x in q <==> x in s && lo < x <= hi
    ensures Ascending(q)
    decreases hi
  {
    if hi <= lo then []
    else
      var rest := OrderedBetween(s, lo, hi - 1);
      assert forall i :: 0 <= i < |rest| ==> rest[i] in rest;
      if hi in s then rest + [hi] else rest
  }

  lemma {:induction false} OrderedSplit(s: set<nat>, a: nat, b: nat, c: nat)
    requires a <= b <= c
    ensures OrderedBetween(s, a, c) == OrderedBetween(s, a, b) + OrderedBetween(s, b, c)
    decreases c
  {
    if b < c { OrderedSplit(s, a, b, c - 1); }
  }

  lemma {:induction false} OrderedAgree(s: set<nat>, t: set<nat>, a: nat, b: nat)
    requires forall i :: a < i <= b ==> (i in s <==> i in t)
    ensures OrderedBetween(s, a, b) == OrderedBetween(t, a, b)
    decreases b
  {
    if a < b { OrderedAgree(s, t, a, b - 1); }
  }

  /** A prefix of the selection is the selection up to its last id. */
  lemma {:induction false} OrderedPrefix(s: set<nat>, a: nat, b: nat, k: nat)
    requires 0 < k <= |OrderedBetween(s, a, b)|
    ensures var q := OrderedBetween(s, a, b); q[..k] == OrderedBetween(s, a, q[k - 1])
    decreases b
  {
    var q := OrderedBetween(s, a, b);
    var rest := OrderedBetween(s, a, b - 1);
    if k <= |rest| {
      OrderedPrefix(s, a, b - 1, k);
      assert q[..k] == rest[..k];
    } else {
      assert q[..k] == q;
    }
  }

  /** LIMIT n; the callers append it only when n is positive. */
  function Limit<T>(q: seq<T>, n: nat): (r: seq<T>)
    ensures r <= q && (n == 0 || |r| <= n)
    ensures forall x :: x in r ==> x in q
  {
    if 0 < n < |q| then q[..n] else q
  }

  function Scanned(rows: Rows, ids: seq<nat>): (events: seq<Event>)
    requires forall i :: i in ids ==> i in rows
    ensures |events| == |ids|
    ensures forall k :: 0 <= k < |ids| ==> events[k] == Scan(ids[k], rows[ids[k]])
  {
    seq(|ids|, k requires 0 <= k < |ids| => Scan(ids[k], rows[ids[k]]))
  }

  lemma ScannedSnoc(rows: Rows, ids: seq<nat>, i: nat)
    requires i in rows && forall j :: j in ids ==> j in rows
    ensures forall j :: j in ids + [i] ==> j in rows
    ensures Scanned(rows, ids + [i]) == Scanned(rows, ids) + [Scan(i, rows[i])]
  {
  }

  /** AfterSQL: every row above a revision, ORDER BY id. */
  function After(rows: Rows, rev: nat, limit: nat): seq<Event> {
    Scanned(rows, Limit(OrderedBetween(rows.Keys, rev, MaxOf(rows.Keys)), limit))
  }

  function PrefixIds(rows: Rows, prefix: string): set<nat> {
    var (start, end) := GetPrefixRange(prefix);
    set i | i in rows && InRange(rows[i].name, start, end)
  }

  /** AfterSQLPrefix: the rows of a prefix above a revision, ORDER BY id. */
  function AfterPrefix(rows: Rows, prefix: string, rev: nat, limit: nat): seq<Event> {
    Scanned(rows, Limit(OrderedBetween(PrefixIds(rows, prefix), rev, MaxOf(rows.Keys)), limit))
  }

  lemma NamesAreNulFree(w: World, i: nat)
    requires Inv(w) && i in w.db.rows
    ensures NulFree(w.db.rows[i].name)
  {
    assert NulFree(COMPACT_KEY) && NulFree(FILL_PREFIX);
    assert NulFree(FillName(i)) by { assert NUL !in Decimal(i); }
  }

  /** The SQL range of a prefix selects what the stream-side filter would. */
  lemma PrefixIdsMatch(w: World, prefix: string, i: nat)
    requires Inv(w)
    ensures i in PrefixIds(w.db.rows, prefix) <==> i in w.db.rows && Matches(w.db.rows[i].name, prefix)
  {
    if i in w.db.rows {
      NamesAreNulFree(w, i);
      PrefixRangeExact(prefix, w.db.rows[i].name);
    }
  }

  lemma {:induction false} OrderedSingleton(k: nat, n: nat)
    requires k >= 1
    ensures OrderedBetween({k}, 0, n) == if k <= n then [k] else []
    decreases n
  {
    if n > 0 { OrderedSingleton(k, n - 1); }
  }

  lemma {:induction false} OrderedEmpty(lo: nat, hi: nat)
    ensures OrderedBetween({}, lo, hi) == []
    decreases hi
  {
    if lo < hi { OrderedEmpty(lo, hi - 1); }
  }

  lemma CompactKeyIds(w: World)
    requires Inv(w)
    ensures PrefixIds(w.db.rows, COMPACT_KEY) == IdsOf(w.db.rows, COMPACT_KEY)
    ensures 0 !in w.db.rows
  {
    forall i
      ensures i in PrefixIds(w.db.rows, COMPACT_KEY) <==> i in IdsOf(w.db.rows, COMPACT_KEY)
    {
      PrefixIdsMatch(w, COMPACT_KEY, i);
    }
  }

  /** compactStart's query finds the bookkeeping row or nothing, never two. */
  lemma CompactKeyQuery(w: World)
    requires Inv(w)
    ensures |AfterPrefix(w.db.rows, COMPACT_KEY, 0, 0)| == if HasCompactKey(w.db.rows) then 1 else 0
  {
    hide Inv, PrefixIds, OrderedBetween;
    CompactKeyIds(w);
    var ids := PrefixIds(w.db.rows, COMPACT_KEY);
    if HasCompactKey(w.db.rows) {
      var k :| k in w.db.rows && w.db.rows[k].name == COMPACT_KEY;
      forall i | i in ids ensures i == k { OneCompactKey(w, i, k); }
      assert k in IdsOf(w.db.rows, COMPACT_KEY);
      assert ids == {k};
      OrderedSingleton(k, MaxOf(w.db.rows.Keys));
    } else {
      assert ids == {};
      OrderedEmpty(0, MaxOf(w.db.rows.Keys));
    }
  }
}
