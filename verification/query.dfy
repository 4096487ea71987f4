/** SQLModel's `select(...).where(...).order_by(...).offset(...).limit(...)`
    as pure functions over the rows a table scan returns. */
module Query {
  import opened Common

  /** The elements of `s` that satisfy `p`, in their original order. */
  function Filter<T>(s: seq<T>, p: T -> bool): (r: seq<T>)
    ensures |r| <= |s|
    ensures forall x | x in r :: x in s && p(x)
    ensures forall x | x in s && p(x) :: x in r
  {
    if |s| == 0 then []
    else
      assert s == [s[0]] + s[1..];
      (if p(s[0]) then [s[0]] else []) + Filter(s[1..], p)
  }

  /** The first element of `s` that satisfies `p`: `.first()` of a filtered scan. */
  function First<T>(s: seq<T>, p: T -> bool): (r: Option<T>)
    ensures r.Some? ==> r.value in s && p(r.value)
    ensures r.None? <==> forall x | x in s :: !p(x)
  {
    if |s| == 0 then None
    else if p(s[0]) then Some(s[0])
    else
      assert s == [s[0]] + s[1..];
      First(s[1..], p)
  }

  predicate SortedBy<T>(s: seq<T>, key: T -> int)
  {
    forall i, j | 0 <= i < j < |s| :: key(s[i]) <= key(s[j])
  }

  /** Places `x` in front of the first element whose key is not smaller. */
  function InsertSorted<T>(x: T, s: seq<T>, key: T -> int): (r: seq<T>)
    requires SortedBy(s, key)
    ensures SortedBy(r, key)
    ensures multiset(r) == multiset(s) + multiset{x}
  {
    if |s| == 0 then [x]
    else if key(x) <= key(s[0]) then [x] + s
    else
      assert s == [s[0]] + s[1..];
      var rest := InsertSorted(x, s[1..], key);
      assert forall y | y in rest :: key(s[0]) <= key(y) by {
        forall y | y in rest
          ensures key(s[0]) <= key(y)
        {
          assert y in multiset(rest);
          if y != x {
            assert y in multiset(s[1..]);
            var j :| 0 <= j < |s[1..]| && s[1..][j] == y;
            assert s[j + 1] == y;
          }
        }
      }
      var r := [s[0]] + rest;
      assert forall i | 0 < i < |r| :: r[i] in rest;
      r
  }

  /** `ORDER BY key`, realised as an insertion sort; rows with equal keys keep
      their scan order. */
  function SortBy<T>(s: seq<T>, key: T -> int): (r: seq<T>)
    ensures SortedBy(r, key)
    ensures multiset(r) == multiset(s)
  {
    if |s| == 0 then []
    else
      assert s == [s[0]] + s[1..];
      InsertSorted(s[0], SortBy(s[1..], key), key)
  }

  /** The number of rows `OFFSET offset LIMIT limit` keeps out of `n`: what
      is left after the offset, cut at the limit. */
  function PageLength(n: nat, offset: nat, limit: Option<nat>): nat
  {
    var left := if offset <= n then n - offset else 0;
    if limit.Some? && limit.value < left then limit.value else left
  }

  /** `r` is the window `OFFSET skip LIMIT limit` of `all`: as many rows as
      the window has room for, each the row `skip` places further on in `all`. */
  ghost predicate WindowOf<T>(r: seq<T>, all: seq<T>, skip: nat, limit: nat)
  {
    && |r| == PageLength(|all|, skip, Some(limit))
    && forall i | 0 <= i < |r| :: skip + i < |all| && r[i] == all[skip + i]
  }

  /** `OFFSET offset LIMIT limit`: a window of `s`, empty past its end. */
  function Page<T>(s: seq<T>, offset: nat, limit: Option<nat>): (r: seq<T>)
    ensures |r| == PageLength(|s|, offset, limit)
    ensures forall i | 0 <= i < |r| :: offset + i < |s| && r[i] == s[offset + i]
    ensures offset == 0 && (limit.None? || limit.value >= |s|) ==> r == s
  {
    var lo := Min(offset, |s|);
    var hi := if limit.None? then |s| else Min(lo + limit.value, |s|);
    s[lo..hi]
  }

  /** A SELECT over rows of type `T`: its WHERE conditions in the order they
      were chained, its ORDER BY key, its OFFSET and its LIMIT. */
  datatype Select<!T> = Select(conds: seq<T -> bool>, orderKey: Option<T -> int>, offset: nat, limit: Option<nat>)

  function From<T>(): Select<T>
  {
    Select([], None, 0, None)
  }

  function Where<T>(q: Select<T>, c: T -> bool): Select<T>
  {
    q.(conds := q.conds + [c])
  }

  function OrderBy<T>(q: Select<T>, key: T -> int): Select<T>
  {
    q.(orderKey := Some(key))
  }

  /** `.offset(skip).limit(limit)`, which every listing applies last. */
  function Window<T>(q: Select<T>, skip: nat, limit: nat): Select<T>
  {
    q.(offset := skip, limit := Some(limit))
  }

  /** A row passes the WHERE clause when it satisfies every chained condition. */
  predicate Satisfies<T>(conds: seq<T -> bool>, x: T)
  {
    forall i | 0 <= i < |conds| :: conds[i](x)
  }

  /** Chaining `.where(c)` narrows a query by conjunction: a row passes the
      longer chain exactly when it passes the old chain and `c`. */
  lemma WhereConjoins<T>(q: Select<T>, c: T -> bool, x: T)
    ensures Satisfies(Where(q, c).conds, x) <==> Satisfies(q.conds, x) && c(x)
  {
    var cs := Where(q, c).conds;
    if Satisfies(cs, x) {
      assert cs[|q.conds|] == c;
      forall i | 0 <= i < |q.conds|
        ensures q.conds[i](x)
      {
        assert cs[i] == q.conds[i];
      }
    }
  }

  /** The rows before OFFSET/LIMIT: filtered by the WHERE conditions, then
      ordered when an ORDER BY key is given. */
  function Matching<T>(conds: seq<T -> bool>, orderKey: Option<T -> int>, rows: seq<T>): (r: seq<T>)
    ensures |r| <= |rows|
    ensures forall x | x in r :: x in rows && Satisfies(conds, x)
    ensures forall x | x in rows && Satisfies(conds, x) :: x in r
    ensures orderKey.Some? ==> SortedBy(r, orderKey.value)
  {
    var kept := Filter(rows, x => Satisfies(conds, x));
    if orderKey.Some? then
      var r := SortBy(kept, orderKey.value);
      SameElements(r, kept);
      assert |r| == |multiset(r)| == |kept|;
      r
    else kept
  }

  lemma SameElements<T>(a: seq<T>, b: seq<T>)
    requires multiset(a) == multiset(b)
    ensures forall x | x in a :: x in b
    ensures forall x | x in b :: x in a
  {
    forall x | x in a
      ensures x in b
    {
      assert x in multiset(a);
    }
    forall x | x in b
      ensures x in a
    {
      assert x in multiset(b);
    }
  }

  /** Runs a SELECT against the rows of a table in scan order. */
  function Exec<T>(q: Select<T>, rows: seq<T>): (r: seq<T>)
    ensures q.limit.Some? ==> |r| <= q.limit.value
    ensures |r| == PageLength(|Matching(q.conds, q.orderKey, rows)|, q.offset, q.limit)
    ensures forall i | 0 <= i < |r| ::
              q.offset + i < |Matching(q.conds, q.orderKey, rows)| && r[i] == Matching(q.conds, q.orderKey, rows)[q.offset + i]
    ensures forall x | x in r :: x in rows && Satisfies(q.conds, x)
    ensures q.orderKey.Some? ==> SortedBy(r, q.orderKey.value)
    ensures q.offset == 0 && (q.limit.None? || q.limit.value >= |rows|) ==> r == Matching(q.conds, q.orderKey, rows)
    ensures q.offset == 0 && (q.limit.None? || q.limit.value >= |rows|) ==>
              forall x | x in rows && Satisfies(q.conds, x) :: x in r
  {
    var m := Matching(q.conds, q.orderKey, rows);
    var r := Page(m, q.offset, q.limit);
    assert forall x | x in r :: x in m;
    assert q.orderKey.Some? ==> SortedBy(r, q.orderKey.value) by {
      if q.orderKey.Some? {
        PageKeepsOrder(m, q.offset, q.limit, q.orderKey.value);
      }
    }
    assert q.offset == 0 && (q.limit.None? || q.limit.value >= |rows|) ==> r == m;
    r
  }

  /** A window of a sorted sequence is sorted. */
  lemma PageKeepsOrder<T>(s: seq<T>, offset: nat, limit: Option<nat>, key: T -> int)
    requires SortedBy(s, key)
    ensures SortedBy(Page(s, offset, limit), key)
  {
    var r := Page(s, offset, limit);
    forall i, j | 0 <= i < j < |r|
      ensures key(r[i]) <= key(r[j])
    {
      assert r[i] == s[offset + i] && r[j] == s[offset + j];
    }
  }

  /** A windowed SELECT returns that window of its unwindowed result. */
  lemma ExecIsWindow<T>(q: Select<T>, rows: seq<T>, skip: nat, limit: nat)
    ensures WindowOf(Exec(Window(q, skip, limit), rows), Matching(q.conds, q.orderKey, rows), skip, limit)
  {
  }

  /** Filters that agree on every row select the same rows. */
  lemma {:induction false} FilterAgrees<T>(s: seq<T>, p: T -> bool, p': T -> bool)
    requires forall x | x in s :: p(x) == p'(x)
    ensures Filter(s, p) == Filter(s, p')
    decreases |s|
  {
    if |s| > 0 {
      FilterAgrees(s[1..], p, p');
    }
  }

  /** Two SELECTs that differ only in WHERE conditions which agree on every
      row return the same result. */
  lemma ExecAgrees<T>(conds: seq<T -> bool>, conds': seq<T -> bool>, orderKey: Option<T -> int>,
                      offset: nat, limit: Option<nat>, rows: seq<T>)
    requires forall x | x in rows :: Satisfies(conds, x) == Satisfies(conds', x)
    ensures Exec(Select(conds, orderKey, offset, limit), rows) == Exec(Select(conds', orderKey, offset, limit), rows)
  {
    FilterAgrees(rows, x => Satisfies(conds, x), x => Satisfies(conds', x));
  }

  /** The first `n` pages of `s`, `size` rows each, concatenated. */
  function Pages<T>(s: seq<T>, size: nat, n: nat): seq<T>
  {
    if n == 0 then [] else Pages(s, size, n - 1) + Page(s, (n - 1) * size, Some(size))
  }

  /** A page of at most `size` rows from `offset` is that slice of `s`. */
  lemma PageSlice<T>(s: seq<T>, offset: nat, size: nat)
    ensures Page(s, offset, Some(size)) == s[Min(offset, |s|)..Min(offset + size, |s|)]
  {
    var page := Page(s, offset, Some(size));
    var a := Min(offset, |s|);
    var b := Min(offset + size, |s|);
    assert |page| == b - a;
    assert forall i | 0 <= i < |page| :: page[i] == s[a + i];
  }

  /** The first `n` pages are exactly the first `n * size` rows. */
  lemma {:induction false} PagesArePrefix<T>(s: seq<T>, size: nat, n: nat)
    ensures Pages(s, size, n) == s[..Min(n * size, |s|)]
  {
    if n > 0 {
      PagesArePrefix(s, size, n - 1);
      var a := Min((n - 1) * size, |s|);
      var b := Min(n * size, |s|);
      var lo := (n - 1) * size;
      assert lo + size == n * size;
      PageSlice(s, lo, size);
      assert s[..a] + s[a..b] == s[..b];
    }
  }

  /** Paging through `s` with `skip = 0, size, 2*size, ...` until the pages
      cover it returns every row once, in order, and nothing else. */
  lemma PagingPartitions<T>(s: seq<T>, size: nat, n: nat)
    requires n * size >= |s|
    ensures Pages(s, size, n) == s
  {
    PagesArePrefix(s, size, n);
  }

  /** The first `n` pages a SELECT returns when run with `.offset(i * size).limit(size)`. */
  function ExecPages<T>(q: Select<T>, rows: seq<T>, size: nat, n: nat): seq<T>
  {
    if n == 0 then [] else ExecPages(q, rows, size, n - 1) + Exec(Window(q, (n - 1) * size, size), rows)
  }

  /** Consecutive pages of one SELECT over one fixed scan concatenate back to
      the whole filtered and ordered result. */
  lemma {:induction false} ExecPagesPartition<T>(q: Select<T>, rows: seq<T>, size: nat, n: nat)
    requires n * size >= |rows|
    ensures ExecPages(q, rows, size, n) == Matching(q.conds, q.orderKey, rows)
  {
    var m := Matching(q.conds, q.orderKey, rows);
    ExecPagesArePages(q, rows, size, n);
    PagingPartitions(m, size, n);
  }

  lemma {:induction false} ExecPagesArePages<T>(q: Select<T>, rows: seq<T>, size: nat, n: nat)
    ensures ExecPages(q, rows, size, n) == Pages(Matching(q.conds, q.orderKey, rows), size, n)
  {
    if n > 0 {
      ExecPagesArePages(q, rows, size, n - 1);
    }
  }
}

/** How often rows occur in listings: the multiplicity facts behind "every
    matching row exactly once". */
module Counting {
  import opened Common
  import opened Query

  ghost predicate DistinctRows<T>(s: seq<T>)
  {
    forall i, j | 0 <= i < j < |s| :: s[i] != s[j]
  }

  /** In a sequence without repeats each element occurs once. */
  lemma {:induction false} DistinctCount<T>(s: seq<T>, x: T)
    requires DistinctRows(s)
    ensures multiset(s)[x] == if x in s then 1 else 0
    decreases |s|
  {
    if |s| > 0 {
      assert s == [s[0]] + s[1..];
      assert DistinctRows(s[1..]) by {
        forall i, j | 0 <= i < j < |s[1..]|
          ensures s[1..][i] != s[1..][j]
        {
          assert s[1..][i] == s[i + 1] && s[1..][j] == s[j + 1];
        }
      }
      DistinctCount(s[1..], x);
    }
  }

  /** Filtering keeps exactly the occurrences of the elements it admits. */
  lemma {:induction false} FilterCount<T>(s: seq<T>, p: T -> bool, x: T)
    ensures multiset(Filter(s, p))[x] == if p(x) then multiset(s)[x] else 0
    decreases |s|
  {
    if |s| > 0 {
      assert s == [s[0]] + s[1..];
      FilterCount(s[1..], p, x);
    }
  }

  /** Over rows without repeats, the filtered and ordered result holds each
      admitted row exactly once and nothing else. */
  lemma MatchingExactlyOnce<T>(conds: seq<T -> bool>, orderKey: Option<T -> int>, rows: seq<T>, x: T)
    requires DistinctRows(rows)
    ensures multiset(Matching(conds, orderKey, rows))[x] == if x in rows && Satisfies(conds, x) then 1 else 0
  {
    var p := (y: T) => Satisfies(conds, y);
    FilterCount(rows, p, x);
    DistinctCount(rows, x);
  }
}
