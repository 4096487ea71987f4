/** `app/communities/service.py` over an in-memory table. */
module CommunityService {
  import opened Common
  import opened Store
  import opened Query
  import opened Counting
  import opened Text
  import opened CommunityModels

  function IdOf(c: Community): Uuid
  {
    c.id
  }

  predicate WellFormed(t: Table<Community>)
  {
    Valid(t) && KeyedBy(t, IdOf)
  }

  /** `create_community`: the request's fields, stamped with the caller as
      owner and with the creation time. */
  function CreateCommunity(t: Table<Community>, create: CommunityCreate, createdBy: Uuid, id: Uuid, now: Instant): (r: Commit<Community>)
    requires WellFormed(t) && id !in t.rows
    ensures r.Committed?
    ensures r.row.createdBy == createdBy && r.row.id == id
    ensures r.row.name == create.name && r.row.description == create.description
    ensures r.row.isPublic == create.isPublic && r.row.isActive == create.isActive
    ensures r.row.createdAt == now && r.row.updatedAt == now
    ensures r.table.rows == t.rows[id := r.row] && WellFormed(r.table)
  {
    var c := Community(id, create.name, create.description, create.isPublic, create.isActive, now, now, createdBy);
    Committed(Insert(t, id, c), c)
  }

  /** `get_community`: the stored record, active or not. */
  function GetCommunity(t: Table<Community>, id: Uuid): (r: Option<Community>)
    requires WellFormed(t)
    ensures r.Some? <==> id in t.rows
    ensures r.Some? ==> r.value == t.rows[id] && r.value.id == id
  {
    Get(t, id)
  }

  /** Every community the WHERE chain of `q` admits, in storage order: the
      listing before `offset(skip).limit(limit)` cuts a window out of it. */
  function Unpaged(t: Table<Community>, q: Select<Community>): seq<Community>
    requires WellFormed(t)
  {
    Matching(q.conds, q.orderKey, Scan(t))
  }

  /** The filter `get_communities` documents: each flag constrains only when given. */
  predicate AdmittedBy(isPublic: Option<bool>, isActive: Option<bool>, c: Community)
  {
    && (isPublic.Some? ==> c.isPublic == isPublic.value)
    && (isActive.Some? ==> c.isActive == isActive.value)
  }

  /** The WHERE chain `get_communities` builds: one clause per flag given. */
  function CommunitiesWhere(isPublic: Option<bool>, isActive: Option<bool>): (q: Select<Community>)
    ensures q.orderKey.None?
    ensures forall c: Community :: Satisfies(q.conds, c) <==> AdmittedBy(isPublic, isActive, c)
  {
    var q0 := From<Community>();
    var q1 := if isPublic.Some? then var p := isPublic.value; Where(q0, (c: Community) => c.isPublic == p) else q0;
    var q2 := if isActive.Some? then var a := isActive.value; Where(q1, (c: Community) => c.isActive == a) else q1;
    assert forall c: Community :: Satisfies(q2.conds, c) <==> AdmittedBy(isPublic, isActive, c) by {
      forall c: Community
        ensures Satisfies(q2.conds, c) <==> AdmittedBy(isPublic, isActive, c)
      {
        if isPublic.Some? {
          WhereConjoins(q0, (x: Community) => x.isPublic == isPublic.value, c);
        }
        if isActive.Some? {
          WhereConjoins(q1, (x: Community) => x.isActive == isActive.value, c);
        }
      }
    }
    q2
  }

  /** `get_communities`: the optional flags combined by AND, then
      `offset(skip).limit(limit)` over storage order. */
  function GetCommunities(t: Table<Community>, skip: nat, limit: nat, isPublic: Option<bool>, isActive: Option<bool>): (r: seq<Community>)
    requires WellFormed(t)
    ensures |r| <= limit
    ensures forall c | c in r :: c in t.rows.Values && AdmittedBy(isPublic, isActive, c)
    ensures WindowOf(r, Unpaged(t, CommunitiesWhere(isPublic, isActive)), skip, limit)
  {
    ScanIsValues(t);
    Exec(Window(CommunitiesWhere(isPublic, isActive), skip, limit), Scan(t))
  }

  /** The pages `skip = 0, size, 2*size, ...` of `get_communities`, concatenated. */
  function CommunityPages(t: Table<Community>, isPublic: Option<bool>, isActive: Option<bool>, size: nat, n: nat): seq<Community>
    requires WellFormed(t)
  {
    if n == 0 then [] else CommunityPages(t, isPublic, isActive, size, n - 1) + GetCommunities(t, (n - 1) * size, size, isPublic, isActive)
  }

  /** Paging through `get_communities` until the pages cover the table
      returns the filtered scan in storage order: every admitted community
      exactly once and no other. */
  lemma CommunityPagingPartitions(t: Table<Community>, isPublic: Option<bool>, isActive: Option<bool>, size: nat, n: nat)
    requires WellFormed(t) && n * size >= |t.rows|
    ensures var q := CommunitiesWhere(isPublic, isActive);
      CommunityPages(t, isPublic, isActive, size, n) == Matching(q.conds, q.orderKey, Scan(t))
    ensures forall c :: multiset(CommunityPages(t, isPublic, isActive, size, n))[c] ==
              if c in t.rows.Values && AdmittedBy(isPublic, isActive, c) then 1 else 0
  {
    var q := CommunitiesWhere(isPublic, isActive);
    CommunityPagesAreExecPages(t, isPublic, isActive, size, n);
    ScanSize(t);
    ExecPagesPartition(q, Scan(t), size, n);
    ScanDistinct(t, IdOf);
    ScanIsValues(t);
    forall c
      ensures multiset(CommunityPages(t, isPublic, isActive, size, n))[c] ==
              if c in t.rows.Values && AdmittedBy(isPublic, isActive, c) then 1 else 0
    {
      MatchingExactlyOnce(q.conds, q.orderKey, Scan(t), c);
    }
  }

  lemma {:induction false} CommunityPagesAreExecPages(t: Table<Community>, isPublic: Option<bool>, isActive: Option<bool>, size: nat, n: nat)
    requires WellFormed(t)
    ensures CommunityPages(t, isPublic, isActive, size, n) == ExecPages(CommunitiesWhere(isPublic, isActive), Scan(t), size, n)
  {
    if n > 0 {
      CommunityPagesAreExecPages(t, isPublic, isActive, size, n - 1);
    }
  }

  /** `Community.created_by == createdBy`. */
  function CreatedBy(createdBy: Uuid): Community -> bool
  {
    (c: Community) => c.createdBy == createdBy
  }

  /** The one-clause WHERE of `get_communities_by_creator`. */
  function ByCreatorWhere(createdBy: Uuid): (q: Select<Community>)
    ensures q.orderKey.None?
    ensures forall c: Community :: Satisfies(q.conds, c) <==> c.createdBy == createdBy
  {
    var q := Where(From<Community>(), CreatedBy(createdBy));
    assert forall c: Community :: Satisfies(q.conds, c) <==> c.createdBy == createdBy by {
      forall c: Community
        ensures Satisfies(q.conds, c) <==> c.createdBy == createdBy
      {
        WhereConjoins(From<Community>(), CreatedBy(createdBy), c);
      }
    }
    q
  }

  /** `get_communities_by_creator`: the caller's communities, windowed; a
      page from 0 that is as long as the table holds all of them. */
  function GetCommunitiesByCreator(t: Table<Community>, createdBy: Uuid, skip: nat, limit: nat): (r: seq<Community>)
    requires WellFormed(t)
    ensures |r| <= limit
    ensures forall c | c in r :: c in t.rows.Values && c.createdBy == createdBy
    ensures skip == 0 && limit >= |t.rows| ==> forall c | c in t.rows.Values && c.createdBy == createdBy :: c in r
    ensures WindowOf(r, Unpaged(t, ByCreatorWhere(createdBy)), skip, limit)
  {
    ScanIsValues(t);
    ScanSize(t);
    Exec(Window(ByCreatorWhere(createdBy), skip, limit), Scan(t))
  }

  /** A covering page of `get_communities_by_creator` holds each of the
      creator's communities exactly once and nothing else. */
  lemma CommunitiesByCreatorExactlyOnce(t: Table<Community>, createdBy: Uuid, limit: nat)
    requires WellFormed(t) && limit >= |t.rows|
    ensures forall c :: multiset(GetCommunitiesByCreator(t, createdBy, 0, limit))[c] ==
              if c in t.rows.Values && c.createdBy == createdBy then 1 else 0
  {
    CoveringPageExactlyOnce(t, IdOf, ByCreatorWhere(createdBy), limit);
  }

  /** The query occurs, ignoring case, in the name or in a present description. */
  predicate Mentions(c: Community, query: string)
  {
    ContainsIgnoreCase(c.name, query) || (c.description.Some? && ContainsIgnoreCase(c.description.value, query))
  }

  /** The WHERE clause `search_communities` builds with `ilike`; a null
      description never matches. */
  predicate IlikeMatches(c: Community, query: string)
  {
    Ilike(c.name, SearchPattern(query)) || (c.description.Some? && Ilike(c.description.value, SearchPattern(query)))
  }

  function MentionsOf(query: string): Community -> bool
  {
    (c: Community) => Mentions(c, query)
  }

  function IlikeMatchesOf(query: string): Community -> bool
  {
    (c: Community) => IlikeMatches(c, query)
  }

  /** The search's WHERE with the query taken as plain text. */
  function MentionsWhere(query: string): (q: Select<Community>)
    ensures q.orderKey.None?
    ensures forall c: Community :: Satisfies(q.conds, c) <==> Mentions(c, query)
  {
    var q := Where(From<Community>(), MentionsOf(query));
    assert forall c: Community :: Satisfies(q.conds, c) <==> Mentions(c, query) by {
      forall c: Community
        ensures Satisfies(q.conds, c) <==> Mentions(c, query)
      {
        WhereConjoins(From<Community>(), MentionsOf(query), c);
      }
    }
    q
  }

  /** The search's WHERE as written: `name ILIKE '%q%' OR description ILIKE '%q%'`. */
  function IlikeWhere(query: string): (q: Select<Community>)
    ensures q.orderKey.None?
    ensures forall c: Community :: Satisfies(q.conds, c) <==> IlikeMatches(c, query)
  {
    var q := Where(From<Community>(), IlikeMatchesOf(query));
    assert forall c: Community :: Satisfies(q.conds, c) <==> IlikeMatches(c, query) by {
      forall c: Community
        ensures Satisfies(q.conds, c) <==> IlikeMatches(c, query)
      {
        WhereConjoins(From<Community>(), IlikeMatchesOf(query), c);
      }
    }
    q
  }

  /** `search_communities` with the query taken as plain text: communities
      whose name or description contains it, ignoring case; a page from 0 as
      long as the table holds every such community. */
  function SearchCommunities(t: Table<Community>, query: string, skip: nat, limit: nat): (r: seq<Community>)
    requires WellFormed(t)
    ensures |r| <= limit
    ensures forall c | c in r :: c in t.rows.Values && Mentions(c, query)
    ensures skip == 0 && limit >= |t.rows| ==> forall c | c in t.rows.Values && Mentions(c, query) :: c in r
    ensures WindowOf(r, Unpaged(t, MentionsWhere(query)), skip, limit)
  {
    ScanIsValues(t);
    ScanSize(t);
    Exec(Window(MentionsWhere(query), skip, limit), Scan(t))
  }

  /** A covering page of the plain-text search holds each community that
      mentions the query exactly once and nothing else. */
  lemma SearchCommunitiesExactlyOnce(t: Table<Community>, query: string, limit: nat)
    requires WellFormed(t) && limit >= |t.rows|
    ensures forall c :: multiset(SearchCommunities(t, query, 0, limit))[c] ==
              if c in t.rows.Values && Mentions(c, query) then 1 else 0
  {
    CoveringPageExactlyOnce(t, IdOf, MentionsWhere(query), limit);
  }

  /** `search_communities` as written: the query is pasted into an `ILIKE`
      pattern, so its `%`, `_` and backslashes act as pattern syntax. A page
      from 0 as long as the table holds every community the pattern matches. */
  function SearchCommunitiesAsWritten(t: Table<Community>, query: string, skip: nat, limit: nat): (r: seq<Community>)
    requires WellFormed(t)
    ensures |r| <= limit
    ensures forall c | c in r :: c in t.rows.Values && IlikeMatches(c, query)
    ensures skip == 0 && limit >= |t.rows| ==> forall c | c in t.rows.Values && IlikeMatches(c, query) :: c in r
    ensures WindowOf(r, Unpaged(t, IlikeWhere(query)), skip, limit)
  {
    ScanIsValues(t);
    ScanSize(t);
    Exec(Window(IlikeWhere(query), skip, limit), Scan(t))
  }

  /** A covering page of the search as written holds each community the
      pattern matches exactly once and nothing else. */
  lemma SearchCommunitiesAsWrittenExactlyOnce(t: Table<Community>, query: string, limit: nat)
    requires WellFormed(t) && limit >= |t.rows|
    ensures forall c :: multiset(SearchCommunitiesAsWritten(t, query, 0, limit))[c] ==
              if c in t.rows.Values && IlikeMatches(c, query) then 1 else 0
  {
    CoveringPageExactlyOnce(t, IdOf, IlikeWhere(query), limit);
  }

  /** For a query without wildcard characters the code as written returns
      exactly the plain-text search result. */
  lemma SearchCommunitiesAgreeOnLiterals(t: Table<Community>, query: string, skip: nat, limit: nat)
    requires WellFormed(t) && Literal(query)
    ensures SearchCommunitiesAsWritten(t, query, skip, limit) == SearchCommunities(t, query, skip, limit)
  {
    forall c: Community | c in Scan(t)
      ensures Satisfies(IlikeWhere(query).conds, c) == Satisfies(MentionsWhere(query).conds, c)
    {
      IlikeIsSubstring(c.name, query);
      if c.description.Some? {
        IlikeIsSubstring(c.description.value, query);
      }
    }
    ExecAgrees(IlikeWhere(query).conds, MentionsWhere(query).conds, None, skip, Some(limit), Scan(t));
  }

  /** A community named "x" is found by the query "_" as written, though its
      name does not contain an underscore. */
  lemma SearchCommunitiesWildcardLeak(id: Uuid, owner: Uuid, now: Instant)
    ensures var c := Community(id, "x", None, true, true, now, now, owner);
      IlikeMatches(c, "_") && !Mentions(c, "_")
  {
    UnescapedWildcardMatches();
  }

  /** `update_community`: the set fields plus `updated_at`; a null for a
      NOT NULL column fails at commit and nothing is written. */
  function UpdateCommunity(t: Table<Community>, id: Uuid, upd: CommunityUpdate, now: Instant): (r: Commit<Community>)
    requires WellFormed(t) && id in t.rows
    ensures r.Failed? <==> WritesNull(upd)
    ensures r.Committed? ==> CommunityChanges(t.rows[id], r.row) <= CommunityUpdateTargets(upd) + {UpdatedAtField}
    ensures r.Committed? ==> r.row.createdBy == t.rows[id].createdBy && r.row.updatedAt == now
    ensures r.Committed? ==> r.table.rows == t.rows[id := r.row] && WellFormed(r.table)
  {
    if WritesNull(upd) then
      var column := if upd.name == Set(None) then "name" else if upd.isPublic == Set(None) then "is_public" else "is_active";
      Failed(NotNullViolation(column))
    else
      var c := ApplyCommunityUpdate(t.rows[id], upd, now);
      Committed(Put(t, id, c), c)
  }

  /** `delete_community`: False for an unknown id; otherwise the record stays,
      inactive, and only `is_active` and `updated_at` change. */
  function DeleteCommunity(t: Table<Community>, id: Uuid, now: Instant): (r: Deletion<Community>)
    requires WellFormed(t)
    ensures r.ok <==> id in t.rows
    ensures !r.ok ==> r.table == t
    ensures r.ok ==> id in r.table.rows && !r.table.rows[id].isActive && r.table.rows[id].updatedAt == now
    ensures r.ok ==> CommunityChanges(t.rows[id], r.table.rows[id]) <= {IsActiveField, UpdatedAtField}
    ensures r.ok ==> r.table.rows == t.rows[id := r.table.rows[id]] && r.table.order == t.order
    ensures WellFormed(r.table)
  {
    match GetCommunity(t, id)
    case None => Deletion(false, t)
    case Some(c) => Deletion(true, Put(t, id, c.(isActive := false, updatedAt := now)))
  }

  /** Soft-deleting twice leaves the same record as once, up to the timestamp. */
  lemma DeleteCommunityIdempotent(t: Table<Community>, id: Uuid, first: Instant, second: Instant)
    requires WellFormed(t)
    ensures var once := DeleteCommunity(t, id, first);
      var twice := DeleteCommunity(once.table, id, second);
      && twice.ok == once.ok
      && twice.table.rows.Keys == once.table.rows.Keys
      && (once.ok ==> twice.table.rows[id] == once.table.rows[id].(updatedAt := second))
      && (!once.ok ==> twice.table == t)
  {
  }

  /** `is_active` is an ordinary update field, so a soft-deleted community can
      be switched back on. */
  lemma SoftDeleteIsReversible(t: Table<Community>, id: Uuid, deleted: Instant, restored: Instant)
    requires WellFormed(t) && id in t.rows
    ensures var d := DeleteCommunity(t, id, deleted).table;
      var u := UpdateCommunity(d, id, CommunityUpdate(Unset, Unset, Unset, Set(Some(true))), restored);
      u.Committed? && u.row.isActive && u.row.createdBy == t.rows[id].createdBy
  {
  }

  /** After a soft delete the community drops out of the `is_active=true`
      listing and, once a page covers the table, appears in the
      `is_active=false` one. */
  lemma SoftDeletedListing(t: Table<Community>, id: Uuid, now: Instant, skip: nat, limit: nat)
    requires WellFormed(t) && id in t.rows && limit >= |t.rows|
    ensures var d := DeleteCommunity(t, id, now).table;
      && d.rows[id] !in GetCommunities(d, skip, limit, None, Some(true))
      && d.rows[id] in GetCommunities(d, 0, limit, None, Some(false))
  {
    var d := DeleteCommunity(t, id, now).table;
    var q := CommunitiesWhere(None, Some(false));
    ScanIsValues(d);
    ScanSize(d);
    var m := Matching(q.conds, q.orderKey, Scan(d));
    assert Exec(Window(q, 0, limit), Scan(d)) == m;
  }

  /** `hard_delete_community`: False for an unknown id; otherwise the record is
      gone, so a later `get_community` finds nothing, and no other record changes. */
  function HardDeleteCommunity(t: Table<Community>, id: Uuid): (r: Deletion<Community>)
    requires WellFormed(t)
    ensures r.ok <==> id in t.rows
    ensures !r.ok ==> r.table == t
    ensures WellFormed(r.table)
    ensures GetCommunity(r.table, id).None?
    ensures forall k | k != id :: GetCommunity(r.table, k) == GetCommunity(t, k)
  {
    match GetCommunity(t, id)
    case None => Deletion(false, t)
    case Some(_) => Deletion(true, Remove(t, id))
  }
}
