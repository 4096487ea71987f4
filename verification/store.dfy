/** The persistence collaborator reduced to an in-memory table: a map from
    primary key to row, plus the storage order in which an unordered scan
    returns the rows. */
module Store {
  import opened Common
  import opened Query
  import opened Counting

  datatype Table<T> = Table(rows: map<Uuid, T>, order: seq<Uuid>)

  /** Exceptions a service call raises: a constraint the database enforces at
      commit, or a `TypeError` raised before anything is written. */
  datatype Fault = NotNullViolation(column: string) | UniqueViolation(column: string) | TypeError(what: string)

  /** The outcome of a write: the table after commit and the refreshed row, or
      the exception that aborted it (the table is then unchanged). */
  datatype Commit<T> = Committed(table: Table<T>, row: T) | Failed(fault: Fault)

  /** The outcome of a delete service call: whether the row was found, and
      the table afterwards. */
  datatype Deletion<T> = Deletion(ok: bool, table: Table<T>)

  /** The storage order lists every key exactly once. */
  predicate Valid<T>(t: Table<T>)
  {
    && Distinct(t.order)
    && (forall i | 0 <= i < |t.order| :: t.order[i] in t.rows)
    && (forall k | k in t.rows :: k in t.order)
  }

  /** Every row is stored under its own primary key. */
  predicate KeyedBy<T>(t: Table<T>, idOf: T -> Uuid)
  {
    forall k | k in t.rows :: idOf(t.rows[k]) == k
  }

  /** `session.get` / `select ... where id == k .first()`. */
  function Get<T>(t: Table<T>, k: Uuid): Option<T>
  {
    if k in t.rows then Some(t.rows[k]) else None
  }

  /** `session.add` of a new row and commit: the row is appended to the scan order. */
  function Insert<T>(t: Table<T>, k: Uuid, v: T): (r: Table<T>)
    requires Valid(t) && k !in t.rows
    ensures Valid(r)
    ensures r.rows == t.rows[k := v]
    ensures |r.rows| == |t.rows| + 1
  {
    Table(t.rows[k := v], t.order + [k])
  }

  /** `session.add` of a row already present and commit. The model keeps the
      row's place in the scan order; PostgreSQL promises no order for an
      unordered scan, so this is a modelling choice, and every ordering fact
      of the model concerns a single table state. */
  function Put<T>(t: Table<T>, k: Uuid, v: T): (r: Table<T>)
    requires k in t.rows
    ensures Valid(t) ==> Valid(r)
    ensures r.rows == t.rows[k := v] && r.rows.Keys == t.rows.Keys
    ensures r.order == t.order
  {
    Table(t.rows[k := v], t.order)
  }

  /** No key occurs twice. */
  predicate Distinct(s: seq<Uuid>)
  {
    forall i, j | 0 <= i < j < |s| :: s[i] != s[j]
  }

  /** The scan order with every occurrence of `k` dropped. */
  function Without(order: seq<Uuid>, k: Uuid): (r: seq<Uuid>)
    ensures forall x :: x in r <==> x in order && x != k
  {
    if |order| == 0 then []
    else if order[0] == k then Without(order[1..], k)
    else [order[0]] + Without(order[1..], k)
  }

  lemma {:induction false} WithoutDistinct(order: seq<Uuid>, k: Uuid)
    requires Distinct(order)
    ensures Distinct(Without(order, k))
  {
    if |order| > 0 {
      assert Distinct(order[1..]) by {
        forall i, j | 0 <= i < j < |order[1..]|
          ensures order[1..][i] != order[1..][j]
        {
          assert order[1..][i] == order[i + 1] && order[1..][j] == order[j + 1];
        }
      }
      WithoutDistinct(order[1..], k);
      if order[0] != k {
        var rest := Without(order[1..], k);
        var r := [order[0]] + rest;
        assert Without(order, k) == r;
        forall i, j | 0 <= i < j < |r|
          ensures r[i] != r[j]
        {
          if i == 0 {
            assert r[j] == rest[j - 1] && rest[j - 1] in rest;
          } else {
            assert r[i] == rest[i - 1] && r[j] == rest[j - 1];
          }
        }
      }
    }
  }

  /** `session.delete` and commit: the row and its place in the scan order go. */
  function Remove<T>(t: Table<T>, k: Uuid): (r: Table<T>)
    ensures Valid(t) ==> Valid(r)
    ensures r.rows == t.rows - {k}
    ensures k in t.rows ==> |r.rows| == |t.rows| - 1
  {
    var r := Table(t.rows - {k}, Without(t.order, k));
    if Valid(t) then
      WithoutDistinct(t.order, k);
      assert forall i | 0 <= i < |r.order| :: r.order[i] in r.order;
      r
    else r
  }

  /** The rows in storage order: what an unordered `SELECT` returns. */
  function Scan<T>(t: Table<T>): (s: seq<T>)
    requires Valid(t)
    ensures |s| == |t.order|
    ensures forall i | 0 <= i < |s| :: s[i] == t.rows[t.order[i]]
  {
    seq(|t.order|, i requires 0 <= i < |t.order| => t.rows[t.order[i]])
  }

  /** A scan returns each stored row and nothing else. */
  lemma ScanHolds<T>(t: Table<T>, x: T)
    requires Valid(t)
    ensures x in Scan(t) <==> exists k | k in t.rows :: t.rows[k] == x
  {
    var s := Scan(t);
    if x in s {
      var i :| 0 <= i < |s| && s[i] == x;
      assert t.rows[t.order[i]] == x;
    }
    if k :| k in t.rows && t.rows[k] == x {
      var i :| 0 <= i < |t.order| && t.order[i] == k;
      assert s[i] == x;
    }
  }

  /** The number of rows a scan returns is the number of stored rows. */
  lemma {:induction false} ScanSize<T>(t: Table<T>)
    requires Valid(t)
    ensures |Scan(t)| == |t.rows|
  {
    DistinctCovers(t.order, t.rows.Keys);
  }

  lemma {:induction false} DistinctCovers(s: seq<Uuid>, keys: set<Uuid>)
    requires Distinct(s)
    requires forall x :: x in s <==> x in keys
    ensures |s| == |keys|
    decreases |s|
  {
    if |s| > 0 {
      var rest := s[1..];
      forall x
        ensures x in rest <==> x in keys - {s[0]}
      {
        if x in rest {
          var j :| 0 <= j < |rest| && rest[j] == x;
          assert s[j + 1] == x;
        }
        if x in keys - {s[0]} {
          var j :| 0 <= j < |s| && s[j] == x;
          assert j != 0;
          assert rest[j - 1] == x;
        }
      }
      DistinctCovers(rest, keys - {s[0]});
    } else {
      assert forall x :: x !in keys;
      assert keys == {};
    }
  }

  /** Rows stored under their own keys are pairwise different, so a scan
      never repeats a row. */
  lemma ScanDistinct<T>(t: Table<T>, idOf: T -> Uuid)
    requires Valid(t) && KeyedBy(t, idOf)
    ensures DistinctRows(Scan(t))
  {
    var s := Scan(t);
    forall i, j | 0 <= i < j < |s|
      ensures s[i] != s[j]
    {
      assert idOf(s[i]) == t.order[i] && idOf(s[j]) == t.order[j];
    }
  }

  /** A scan returns exactly the stored rows. */
  lemma ScanIsValues<T>(t: Table<T>)
    requires Valid(t)
    ensures forall x | x in Scan(t) :: x in t.rows.Values
    ensures forall x | x in t.rows.Values :: x in Scan(t)
  {
    forall x | x in Scan(t)
      ensures x in t.rows.Values
    {
      ScanHolds(t, x);
    }
    forall x | x in t.rows.Values
      ensures x in Scan(t)
    {
      ScanHolds(t, x);
    }
  }

  /** A single page that starts at 0 and is at least as long as the table
      returns every row the WHERE chain admits exactly once, and no other. */
  lemma CoveringPageExactlyOnce<T>(t: Table<T>, idOf: T -> Uuid, q: Select<T>, limit: nat)
    requires Valid(t) && KeyedBy(t, idOf) && limit >= |t.rows|
    ensures forall x :: multiset(Exec(Window(q, 0, limit), Scan(t)))[x] ==
              if x in t.rows.Values && Satisfies(q.conds, x) then 1 else 0
  {
    ScanSize(t);
    ScanDistinct(t, idOf);
    ScanIsValues(t);
    forall x
      ensures multiset(Exec(Window(q, 0, limit), Scan(t)))[x] ==
              if x in t.rows.Values && Satisfies(q.conds, x) then 1 else 0
    {
      MatchingExactlyOnce(q.conds, q.orderKey, Scan(t), x);
    }
  }
}
