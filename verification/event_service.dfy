/** `app/events/service.py` over an in-memory table. Every listing is ordered
    by `start_time`. */
module EventService {
  import opened Common
  import opened Store
  import opened Query
  import opened Counting
  import opened Text
  import opened EventModels

  function IdOf(e: Event): Uuid
  {
    e.id
  }

  predicate WellFormed(t: Table<Event>)
  {
    Valid(t) && KeyedBy(t, IdOf)
  }

  /** The ORDER BY key of every event listing. */
  function StartTime(e: Event): int
  {
    e.startTime
  }

  /** Earlier events first. */
  predicate Chronological(s: seq<Event>)
  {
    forall i, j | 0 <= i < j < |s| :: s[i].startTime <= s[j].startTime
  }

  /** `create_event`: the request's fields, stamped with the caller as owner
      and with the creation time. */
  function CreateEvent(t: Table<Event>, create: EventCreate, createdBy: Uuid, id: Uuid, now: Instant): (r: Commit<Event>)
    requires WellFormed(t) && id !in t.rows
    ensures r.Committed?
    ensures r.row.id == id && r.row.createdBy == createdBy && r.row.communityId == create.communityId
    ensures r.row.title == create.title && r.row.description == create.description
    ensures r.row.startTime == create.startTime && r.row.endTime == create.endTime
    ensures r.row.location == create.location && r.row.isOnline == create.isOnline
    ensures r.row.maxAttendees == create.maxAttendees
    ensures r.row.isActive == create.isActive && r.row.isPublic == create.isPublic
    ensures r.row.createdAt == now && r.row.updatedAt == now
    ensures r.table.rows == t.rows[id := r.row] && WellFormed(r.table)
  {
    var e := Event(id, create.title, create.description, create.startTime, create.endTime, create.location,
                   create.isOnline, create.maxAttendees, create.isActive, create.isPublic, now, now,
                   createdBy, create.communityId);
    Committed(Insert(t, id, e), e)
  }

  /** `get_event`: the stored record, active or not. */
  function GetEvent(t: Table<Event>, id: Uuid): (r: Option<Event>)
    requires WellFormed(t)
    ensures r.Some? <==> id in t.rows
    ensures r.Some? ==> r.value == t.rows[id] && r.value.id == id
  {
    Get(t, id)
  }

  /** Every event the WHERE chain of `q` admits, earliest start first: the
      listing before `offset(skip).limit(limit)` cuts a window out of it. */
  function Unpaged(t: Table<Event>, q: Select<Event>): seq<Event>
    requires WellFormed(t)
  {
    Matching(q.conds, Some(StartTime), Scan(t))
  }

  /** Runs the WHERE chain of `q` ordered by start time, windowed, over the table. */
  function Listing(t: Table<Event>, q: Select<Event>, skip: nat, limit: nat): (r: seq<Event>)
    requires WellFormed(t)
    ensures |r| <= limit
    ensures forall e | e in r :: e in t.rows.Values && Satisfies(q.conds, e)
    ensures Chronological(r)
    ensures skip == 0 && limit >= |t.rows| ==> forall e | e in t.rows.Values && Satisfies(q.conds, e) :: e in r
    ensures WindowOf(r, Unpaged(t, q), skip, limit)
  {
    ScanIsValues(t);
    ScanSize(t);
    ExecIsWindow(OrderBy(q, StartTime), Scan(t), skip, limit);
    Exec(Window(OrderBy(q, StartTime), skip, limit), Scan(t))
  }

  /** A listing page from 0 as long as the table holds every event its WHERE
      chain admits exactly once, and nothing else. */
  lemma ListingExactlyOnce(t: Table<Event>, q: Select<Event>, limit: nat)
    requires WellFormed(t) && limit >= |t.rows|
    ensures forall e :: multiset(Listing(t, q, 0, limit))[e] ==
              if e in t.rows.Values && Satisfies(q.conds, e) then 1 else 0
  {
    CoveringPageExactlyOnce(t, IdOf, OrderBy(q, StartTime), limit);
  }

  /** A one-clause WHERE admits exactly what its clause admits. */
  lemma OneClause(c: Event -> bool, e: Event)
    ensures Satisfies(Where(From<Event>(), c).conds, e) <==> c(e)
  {
    WhereConjoins(From<Event>(), c, e);
  }

  /** The optional filters of `get_events`. */
  datatype EventFilter = EventFilter(communityId: Option<Uuid>, isPublic: Option<bool>, isActive: Option<bool>, upcomingOnly: bool)

  /** What `get_events` documents: each given filter must hold, and
      `upcoming_only` keeps events starting now or later. */
  predicate AdmittedBy(f: EventFilter, now: Instant, e: Event)
  {
    && (f.communityId.Some? ==> e.communityId == f.communityId.value)
    && (f.isPublic.Some? ==> e.isPublic == f.isPublic.value)
    && (f.isActive.Some? ==> e.isActive == f.isActive.value)
    && (f.upcomingOnly ==> e.startTime >= now)
  }

  /** `Event.start_time >= now`. */
  function StartsBy(now: Instant): Event -> bool
  {
    (e: Event) => e.startTime >= now
  }

  /** The WHERE chain `get_events` builds: one clause per filter given. */
  function EventsWhere(f: EventFilter, now: Instant): (q: Select<Event>)
    ensures forall e: Event :: Satisfies(q.conds, e) <==> AdmittedBy(f, now, e)
  {
    var q0 := From<Event>();
    var q1 := if f.communityId.Some? then var c := f.communityId.value; Where(q0, (e: Event) => e.communityId == c) else q0;
    var q2 := if f.isPublic.Some? then var p := f.isPublic.value; Where(q1, (e: Event) => e.isPublic == p) else q1;
    var q3 := if f.isActive.Some? then var a := f.isActive.value; Where(q2, (e: Event) => e.isActive == a) else q2;
    var q4 := if f.upcomingOnly then Where(q3, StartsBy(now)) else q3;
    assert forall e: Event :: Satisfies(q4.conds, e) <==> AdmittedBy(f, now, e) by {
      forall e: Event
        ensures Satisfies(q4.conds, e) <==> AdmittedBy(f, now, e)
      {
        if f.communityId.Some? {
          WhereConjoins(q0, (x: Event) => x.communityId == f.communityId.value, e);
        }
        if f.isPublic.Some? {
          WhereConjoins(q1, (x: Event) => x.isPublic == f.isPublic.value, e);
        }
        if f.isActive.Some? {
          WhereConjoins(q2, (x: Event) => x.isActive == f.isActive.value, e);
        }
        if f.upcomingOnly {
          WhereConjoins(q3, StartsBy(now), e);
        }
      }
    }
    q4
  }

  /** `get_events`: the filters combined by AND, earliest start first, then
      `offset(skip).limit(limit)`. */
  function GetEvents(t: Table<Event>, skip: nat, limit: nat, f: EventFilter, now: Instant): (r: seq<Event>)
    requires WellFormed(t)
    ensures |r| <= limit
    ensures forall e | e in r :: e in t.rows.Values && AdmittedBy(f, now, e)
    ensures Chronological(r)
    ensures WindowOf(r, Unpaged(t, EventsWhere(f, now)), skip, limit)
  {
    Listing(t, EventsWhere(f, now), skip, limit)
  }

  /** The pages `skip = 0, size, 2*size, ...` of `get_events`, concatenated. */
  function EventPages(t: Table<Event>, f: EventFilter, now: Instant, size: nat, n: nat): seq<Event>
    requires WellFormed(t)
  {
    if n == 0 then [] else EventPages(t, f, now, size, n - 1) + GetEvents(t, (n - 1) * size, size, f, now)
  }

  lemma {:induction false} EventPagesAreExecPages(t: Table<Event>, f: EventFilter, now: Instant, size: nat, n: nat)
    requires WellFormed(t)
    ensures EventPages(t, f, now, size, n) == ExecPages(OrderBy(EventsWhere(f, now), StartTime), Scan(t), size, n)
  {
    if n > 0 {
      EventPagesAreExecPages(t, f, now, size, n - 1);
    }
  }

  /** Paging through `get_events` until the pages cover the table returns
      every admitted event exactly once, no other, and the concatenated pages
      are still in start-time order: no event is skipped or repeated at a page
      boundary. */
  lemma EventPagingPartitions(t: Table<Event>, f: EventFilter, now: Instant, size: nat, n: nat)
    requires WellFormed(t) && n * size >= |t.rows|
    ensures Chronological(EventPages(t, f, now, size, n))
    ensures forall e :: multiset(EventPages(t, f, now, size, n))[e] ==
              if e in t.rows.Values && AdmittedBy(f, now, e) then 1 else 0
  {
    var q := OrderBy(EventsWhere(f, now), StartTime);
    EventPagesAreExecPages(t, f, now, size, n);
    ScanSize(t);
    ExecPagesPartition(q, Scan(t), size, n);
    ScanDistinct(t, IdOf);
    ScanIsValues(t);
    forall e
      ensures multiset(EventPages(t, f, now, size, n))[e] ==
              if e in t.rows.Values && AdmittedBy(f, now, e) then 1 else 0
    {
      MatchingExactlyOnce(q.conds, q.orderKey, Scan(t), e);
    }
  }

  /** `Event.created_by == createdBy`. */
  function CreatedBy(createdBy: Uuid): Event -> bool
  {
    (e: Event) => e.createdBy == createdBy
  }

  /** `get_events_by_creator`; a page from 0 as long as the table holds all
      of the creator's events. */
  function GetEventsByCreator(t: Table<Event>, createdBy: Uuid, skip: nat, limit: nat): (r: seq<Event>)
    requires WellFormed(t)
    ensures |r| <= limit
    ensures forall e | e in r :: e in t.rows.Values && e.createdBy == createdBy
    ensures Chronological(r)
    ensures skip == 0 && limit >= |t.rows| ==> forall e | e in t.rows.Values && e.createdBy == createdBy :: e in r
    ensures WindowOf(r, Unpaged(t, Where(From<Event>(), CreatedBy(createdBy))), skip, limit)
  {
    var c := CreatedBy(createdBy);
    assert forall e: Event :: Satisfies(Where(From<Event>(), c).conds, e) <==> c(e) by {
      forall e: Event
        ensures Satisfies(Where(From<Event>(), c).conds, e) <==> c(e)
      {
        OneClause(c, e);
      }
    }
    Listing(t, Where(From<Event>(), c), skip, limit)
  }

  /** A covering page of `get_events_by_creator` holds each of the creator's
      events exactly once and nothing else. */
  lemma EventsByCreatorExactlyOnce(t: Table<Event>, createdBy: Uuid, limit: nat)
    requires WellFormed(t) && limit >= |t.rows|
    ensures forall e :: multiset(GetEventsByCreator(t, createdBy, 0, limit))[e] ==
              if e in t.rows.Values && e.createdBy == createdBy then 1 else 0
  {
    var c := CreatedBy(createdBy);
    ListingExactlyOnce(t, Where(From<Event>(), c), limit);
    forall e: Event
      ensures Satisfies(Where(From<Event>(), c).conds, e) <==> e.createdBy == createdBy
    {
      OneClause(c, e);
    }
  }

  /** The clause of `get_events_by_community`. */
  function InCommunity(communityId: Uuid): Event -> bool
  {
    (e: Event) => e.communityId == communityId
  }

  /** `get_events_by_community`. */
  function GetEventsByCommunity(t: Table<Event>, communityId: Uuid, skip: nat, limit: nat): (r: seq<Event>)
    requires WellFormed(t)
    ensures |r| <= limit
    ensures forall e | e in r :: e in t.rows.Values && e.communityId == communityId
    ensures Chronological(r)
    ensures WindowOf(r, Unpaged(t, Where(From<Event>(), InCommunity(communityId))), skip, limit)
  {
    var c := InCommunity(communityId);
    assert forall e: Event :: Satisfies(Where(From<Event>(), c).conds, e) ==> c(e) by {
      forall e: Event
        ensures Satisfies(Where(From<Event>(), c).conds, e) ==> c(e)
      {
        OneClause(c, e);
      }
    }
    Listing(t, Where(From<Event>(), c), skip, limit)
  }

  /** `get_upcoming_events`: events starting now or later, whether active or not. */
  function GetUpcomingEvents(t: Table<Event>, skip: nat, limit: nat, now: Instant): (r: seq<Event>)
    requires WellFormed(t)
    ensures |r| <= limit
    ensures forall e | e in r :: e in t.rows.Values && e.startTime >= now
    ensures Chronological(r)
    ensures WindowOf(r, Unpaged(t, Where(From<Event>(), StartsBy(now))), skip, limit)
  {
    var c := StartsBy(now);
    assert forall e: Event :: Satisfies(Where(From<Event>(), c).conds, e) ==> c(e) by {
      forall e: Event
        ensures Satisfies(Where(From<Event>(), c).conds, e) ==> c(e)
      {
        OneClause(c, e);
      }
    }
    Listing(t, Where(From<Event>(), c), skip, limit)
  }

  /** The upcoming listing is `get_events` with only `upcoming_only` set, and
      the community listing is `get_events` with only `community_id` set. */
  lemma ListingsAreFilteredEvents(t: Table<Event>, skip: nat, limit: nat, now: Instant, communityId: Uuid)
    requires WellFormed(t)
    ensures GetUpcomingEvents(t, skip, limit, now) == GetEvents(t, skip, limit, EventFilter(None, None, None, true), now)
    ensures GetEventsByCommunity(t, communityId, skip, limit) == GetEvents(t, skip, limit, EventFilter(Some(communityId), None, None, false), now)
  {
    var q := EventsWhere(EventFilter(Some(communityId), None, None, false), now);
    var c := Where(From<Event>(), InCommunity(communityId)).conds;
    forall e: Event | e in Scan(t)
      ensures Satisfies(q.conds, e) == Satisfies(c, e)
    {
      OneClause(InCommunity(communityId), e);
    }
    ExecAgrees(q.conds, c, Some(StartTime), skip, Some(limit), Scan(t));
  }

  /** The two clauses of `get_events_by_date_range`. */
  function DateRange(start: Instant, end: Instant): Select<Event>
  {
    Where(Where(From<Event>(), StartsBy(start)), (e: Event) => e.startTime <= end)
  }

  /** `get_events_by_date_range`: events starting within `[start, end]`,
      both ends included. */
  function GetEventsByDateRange(t: Table<Event>, start: Instant, end: Instant, skip: nat, limit: nat): (r: seq<Event>)
    requires WellFormed(t)
    ensures |r| <= limit
    ensures forall e | e in r :: e in t.rows.Values && start <= e.startTime <= end
    ensures Chronological(r)
    ensures WindowOf(r, Unpaged(t, DateRange(start, end)), skip, limit)
  {
    var q := DateRange(start, end);
    assert forall e: Event :: Satisfies(q.conds, e) ==> start <= e.startTime <= end by {
      forall e: Event
        ensures Satisfies(q.conds, e) ==> start <= e.startTime <= end
      {
        OneClause(StartsBy(start), e);
        WhereConjoins(Where(From<Event>(), StartsBy(start)), (x: Event) => x.startTime <= end, e);
      }
    }
    Listing(t, q, skip, limit)
  }

  /** Every event starting within the range is found once the pages cover the table. */
  lemma DateRangeComplete(t: Table<Event>, start: Instant, end: Instant, limit: nat, e: Event)
    requires WellFormed(t) && limit >= |t.rows|
    requires e in t.rows.Values && start <= e.startTime <= end
    ensures e in GetEventsByDateRange(t, start, end, 0, limit)
  {
    var q := OrderBy(DateRange(start, end), StartTime);
    ScanIsValues(t);
    OneClause(StartsBy(start), e);
    WhereConjoins(Where(From<Event>(), StartsBy(start)), (x: Event) => x.startTime <= end, e);
    var m := Matching(q.conds, q.orderKey, Scan(t));
    ScanSize(t);
    assert Exec(Window(q, 0, limit), Scan(t)) == m;
  }

  /** The query occurs, ignoring case, in the title or in a present
      description or location. */
  predicate Mentions(e: Event, query: string)
  {
    || ContainsIgnoreCase(e.title, query)
    || (e.description.Some? && ContainsIgnoreCase(e.description.value, query))
    || (e.location.Some? && ContainsIgnoreCase(e.location.value, query))
  }

  /** The WHERE clause `search_events` builds with `ilike`; a null column never matches. */
  predicate IlikeMatches(e: Event, query: string)
  {
    || Ilike(e.title, SearchPattern(query))
    || (e.description.Some? && Ilike(e.description.value, SearchPattern(query)))
    || (e.location.Some? && Ilike(e.location.value, SearchPattern(query)))
  }

  function MentionsOf(query: string): Event -> bool
  {
    (e: Event) => Mentions(e, query)
  }

  function IlikeMatchesOf(query: string): Event -> bool
  {
    (e: Event) => IlikeMatches(e, query)
  }

  /** `search_events` with the query taken as plain text; a page from 0 as
      long as the table holds every event that mentions the query. */
  function SearchEvents(t: Table<Event>, query: string, skip: nat, limit: nat): (r: seq<Event>)
    requires WellFormed(t)
    ensures |r| <= limit
    ensures forall e | e in r :: e in t.rows.Values && Mentions(e, query)
    ensures Chronological(r)
    ensures skip == 0 && limit >= |t.rows| ==> forall e | e in t.rows.Values && Mentions(e, query) :: e in r
    ensures WindowOf(r, Unpaged(t, Where(From<Event>(), MentionsOf(query))), skip, limit)
  {
    var c := MentionsOf(query);
    assert forall e: Event :: Satisfies(Where(From<Event>(), c).conds, e) <==> c(e) by {
      forall e: Event
        ensures Satisfies(Where(From<Event>(), c).conds, e) <==> c(e)
      {
        OneClause(c, e);
      }
    }
    Listing(t, Where(From<Event>(), c), skip, limit)
  }

  /** A covering page holds each event that mentions the query exactly once
      and nothing else. */
  lemma SearchEventsExactlyOnce(t: Table<Event>, query: string, limit: nat)
    requires WellFormed(t) && limit >= |t.rows|
    ensures forall e :: multiset(SearchEvents(t, query, 0, limit))[e] ==
              if e in t.rows.Values && Mentions(e, query) then 1 else 0
  {
    var c := MentionsOf(query);
    ListingExactlyOnce(t, Where(From<Event>(), c), limit);
    forall e: Event
      ensures Satisfies(Where(From<Event>(), c).conds, e) <==> Mentions(e, query)
    {
      OneClause(c, e);
    }
  }

  /** `search_events` as written: the query is pasted into an `ILIKE`
      pattern; a page from 0 as long as the table holds every event it matches. */
  function SearchEventsAsWritten(t: Table<Event>, query: string, skip: nat, limit: nat): (r: seq<Event>)
    requires WellFormed(t)
    ensures |r| <= limit
    ensures forall e | e in r :: e in t.rows.Values && IlikeMatches(e, query)
    ensures Chronological(r)
    ensures skip == 0 && limit >= |t.rows| ==> forall e | e in t.rows.Values && IlikeMatches(e, query) :: e in r
    ensures WindowOf(r, Unpaged(t, Where(From<Event>(), IlikeMatchesOf(query))), skip, limit)
  {
    var c := IlikeMatchesOf(query);
    assert forall e: Event :: Satisfies(Where(From<Event>(), c).conds, e) <==> c(e) by {
      forall e: Event
        ensures Satisfies(Where(From<Event>(), c).conds, e) <==> c(e)
      {
        OneClause(c, e);
      }
    }
    Listing(t, Where(From<Event>(), c), skip, limit)
  }

  /** A covering page holds each event the pattern matches exactly once
      and nothing else. */
  lemma SearchEventsAsWrittenExactlyOnce(t: Table<Event>, query: string, limit: nat)
    requires WellFormed(t) && limit >= |t.rows|
    ensures forall e :: multiset(SearchEventsAsWritten(t, query, 0, limit))[e] ==
              if e in t.rows.Values && IlikeMatches(e, query) then 1 else 0
  {
    var c := IlikeMatchesOf(query);
    ListingExactlyOnce(t, Where(From<Event>(), c), limit);
    forall e: Event
      ensures Satisfies(Where(From<Event>(), c).conds, e) <==> IlikeMatches(e, query)
    {
      OneClause(c, e);
    }
  }

  /** For a query without wildcard characters the code as written returns
      exactly the plain-text search result. */
  lemma SearchEventsAgreeOnLiterals(t: Table<Event>, query: string, skip: nat, limit: nat)
    requires WellFormed(t) && Literal(query)
    ensures SearchEventsAsWritten(t, query, skip, limit) == SearchEvents(t, query, skip, limit)
  {
    var c1 := Where(From<Event>(), IlikeMatchesOf(query)).conds;
    var c2 := Where(From<Event>(), MentionsOf(query)).conds;
    forall e: Event | e in Scan(t)
      ensures Satisfies(c1, e) == Satisfies(c2, e)
    {
      IlikeIsSubstring(e.title, query);
      if e.description.Some? {
        IlikeIsSubstring(e.description.value, query);
      }
      if e.location.Some? {
        IlikeIsSubstring(e.location.value, query);
      }
      OneClause(IlikeMatchesOf(query), e);
      OneClause(MentionsOf(query), e);
    }
    ExecAgrees(c1, c2, Some(StartTime), skip, Some(limit), Scan(t));
  }

  /** An event titled "x" is found by the query "_" as written, though
      nothing in it contains an underscore. */
  lemma SearchEventsWildcardLeak(e: Event)
    requires e.title == "x" && e.description.None? && e.location.None?
    ensures IlikeMatches(e, "_") && !Mentions(e, "_")
  {
    UnescapedWildcardMatches();
  }

  /** `update_event`: the set fields plus `updated_at`; a null for a NOT NULL
      column fails at commit and nothing is written. */
  function UpdateEvent(t: Table<Event>, id: Uuid, upd: EventUpdate, now: Instant): (r: Commit<Event>)
    requires WellFormed(t) && id in t.rows
    ensures r.Failed? <==> WritesNull(upd)
    ensures r.Committed? ==> EventChanges(t.rows[id], r.row) <= EventUpdateTargets(upd) + {UpdatedAtField}
    ensures r.Committed? ==> r.row.createdBy == t.rows[id].createdBy && r.row.communityId == t.rows[id].communityId
    ensures r.Committed? ==> r.row.updatedAt == now
    ensures r.Committed? ==> r.table.rows == t.rows[id := r.row] && WellFormed(r.table)
  {
    if WritesNull(upd) then
      var column :=
        if upd.title == Set(None) then "title"
        else if upd.startTime == Set(None) then "start_time"
        else if upd.isOnline == Set(None) then "is_online"
        else if upd.isActive == Set(None) then "is_active"
        else "is_public";
      Failed(NotNullViolation(column))
    else
      var e := ApplyEventUpdate(t.rows[id], upd, now);
      Committed(Put(t, id, e), e)
  }

  /** `delete_event`: False for an unknown id; otherwise the record stays,
      inactive, and only `is_active` and `updated_at` change. */
  function DeleteEvent(t: Table<Event>, id: Uuid, now: Instant): (r: Deletion<Event>)
    requires WellFormed(t)
    ensures r.ok <==> id in t.rows
    ensures !r.ok ==> r.table == t
    ensures r.ok ==> id in r.table.rows && !r.table.rows[id].isActive && r.table.rows[id].updatedAt == now
    ensures r.ok ==> EventChanges(t.rows[id], r.table.rows[id]) <= {IsActiveField, UpdatedAtField}
    ensures r.ok ==> r.table.rows == t.rows[id := r.table.rows[id]] && r.table.order == t.order
    ensures WellFormed(r.table)
  {
    match GetEvent(t, id)
    case None => Deletion(false, t)
    case Some(e) => Deletion(true, Put(t, id, e.(isActive := false, updatedAt := now)))
  }

  /** Soft-deleting twice leaves the same record as once, up to the timestamp. */
  lemma DeleteEventIdempotent(t: Table<Event>, id: Uuid, first: Instant, second: Instant)
    requires WellFormed(t)
    ensures var once := DeleteEvent(t, id, first);
      var twice := DeleteEvent(once.table, id, second);
      && twice.ok == once.ok
      && twice.table.rows.Keys == once.table.rows.Keys
      && (once.ok ==> twice.table.rows[id] == once.table.rows[id].(updatedAt := second))
      && (!once.ok ==> twice.table == t)
  {
  }

  /** A soft-deleted event that has not started yet is still listed as
      upcoming: the upcoming listing does not look at `is_active`. */
  lemma DeletedEventStillUpcoming(t: Table<Event>, id: Uuid, now: Instant, limit: nat)
    requires WellFormed(t) && id in t.rows && t.rows[id].startTime >= now && limit >= |t.rows|
    ensures var d := DeleteEvent(t, id, now).table;
      d.rows[id] in GetUpcomingEvents(d, 0, limit, now) && !d.rows[id].isActive
  {
    var d := DeleteEvent(t, id, now).table;
    var q := OrderBy(Where(From<Event>(), StartsBy(now)), StartTime);
    ScanIsValues(d);
    ScanSize(d);
    OneClause(StartsBy(now), d.rows[id]);
    var m := Matching(q.conds, q.orderKey, Scan(d));
    assert Exec(Window(q, 0, limit), Scan(d)) == m;
  }

  /** `hard_delete_event`: False for an unknown id; otherwise the record is
      gone and no other record changes. */
  function HardDeleteEvent(t: Table<Event>, id: Uuid): (r: Deletion<Event>)
    requires WellFormed(t)
    ensures r.ok <==> id in t.rows
    ensures !r.ok ==> r.table == t
    ensures WellFormed(r.table)
    ensures GetEvent(r.table, id).None?
    ensures forall k | k != id :: GetEvent(r.table, k) == GetEvent(t, k)
  {
    match GetEvent(t, id)
    case None => Deletion(false, t)
    case Some(_) => Deletion(true, Remove(t, id))
  }
}
