/** `app/events/router.py`: validation, the community and ownership checks
    and the status codes around the event service. Handlers receive the
    caller already resolved by `Deps.GetCurrentUser`. */
module EventRouter {
  import opened Common
  import opened Store
  import opened Http
  import opened Query
  import opened Text
  import opened EventModels
  import AuthModels
  import CommunityModels
  import C = CommunityService
  import S = EventService

  const CommunityNotFound: string := "Community not found"
  const NotCommunityCreator: string := "Not enough permissions to create events in this community"
  const EventNotFound: string := "Event not found"
  const BadDateRange: string := "Start date must be before end date"
  const FailedToDelete: string := "Failed to delete event"
  const FailedToPurge: string := "Failed to permanently delete event"
  const Deleted: string := "Event deleted successfully"
  const Purged: string := "Event permanently deleted"

  /** `POST /`: the body is validated (422); the community it names must exist
      (404) and be the caller's own (403); the new event is the caller's. */
  function CreateEvent(communities: Table<CommunityModels.Community>, t: Table<Event>, body: EventCreateBody,
                       current: AuthModels.User, id: Uuid, now: Instant): (r: Reply<Event, Table<Event>>)
    requires C.WellFormed(communities) && S.WellFormed(t) && id !in t.rows
    ensures ParseEventCreate(body).Fail? ==> r.response.Error? && r.response.status == UnprocessableEntity
    ensures var p := ParseEventCreate(body);
      p.Pass? && p.value.communityId !in communities.rows ==> r.response == Error(NotFound, CommunityNotFound)
    ensures var p := ParseEventCreate(body);
      (p.Pass? && p.value.communityId in communities.rows && communities.rows[p.value.communityId].createdBy != current.id)
      ==> r.response == Error(Forbidden, NotCommunityCreator)
    ensures var p := ParseEventCreate(body);
      r.response.Ok? <==> (p.Pass? && p.value.communityId in communities.rows && communities.rows[p.value.communityId].createdBy == current.id)
    ensures r.response.Error? ==> r.state == t
    ensures r.response.Ok? ==> r.response.body.createdBy == current.id && r.response.body.id == id
    ensures r.response.Ok? ==> r.response.body.communityId == ParseEventCreate(body).value.communityId
    ensures r.response.Ok? ==> r.state.rows == t.rows[id := r.response.body] && S.WellFormed(r.state)
  {
    match ParseEventCreate(body)
    case Fail(field) => Reply(Error(UnprocessableEntity, field + ": invalid"), t)
    case Pass(create) =>
      match C.GetCommunity(communities, create.communityId)
      case None => Reply(Error(NotFound, CommunityNotFound), t)
      case Some(community) =>
        if community.createdBy != current.id then Reply(Error(Forbidden, NotCommunityCreator), t)
        else
          var c := S.CreateEvent(t, create, current.id, id, now);
          Reply(Ok(c.row), c.table)
  }

  /** `GET /`: paging is checked, then the filtered listing. */
  function GetEvents(t: Table<Event>, skip: Option<int>, limit: Option<int>, f: S.EventFilter, now: Instant): (r: Response<seq<Event>>)
    requires S.WellFormed(t)
    ensures r.Ok? <==> CheckPaging(skip, limit).Ok?
    ensures r.Error? ==> r.status == UnprocessableEntity
    ensures r.Ok? ==> |r.body| <= CheckPaging(skip, limit).body.limit <= MaxLimit
    ensures r.Ok? ==> S.Chronological(r.body) && forall e | e in r.body :: e in t.rows.Values && S.AdmittedBy(f, now, e)
    ensures r.Ok? ==> WindowOf(r.body, S.Unpaged(t, S.EventsWhere(f, now)), CheckPaging(skip, limit).body.skip, CheckPaging(skip, limit).body.limit)
  {
    match CheckPaging(skip, limit)
    case Error(status, detail) => Error(status, detail)
    case Ok(p) => Ok(S.GetEvents(t, p.skip, p.limit, f, now))
  }

  /** `GET /search`: the search as the service writes it, with the query
      inside an `ILIKE` pattern. For a query free of `%`, `_` and
      backslashes that is the plain-text search. */
  function SearchEvents(t: Table<Event>, q: Option<string>, skip: Option<int>, limit: Option<int>): (r: Response<seq<Event>>)
    requires S.WellFormed(t)
    ensures r.Ok? <==> CheckSearchQuery(q).Ok? && CheckPaging(skip, limit).Ok?
    ensures r.Error? ==> r.status == UnprocessableEntity
    ensures r.Ok? ==> |r.body| <= MaxLimit && S.Chronological(r.body)
    ensures r.Ok? ==> forall e | e in r.body :: e in t.rows.Values && S.IlikeMatches(e, q.value)
    ensures r.Ok? && Covers(CheckPaging(skip, limit).body, |t.rows|) ==>
              forall e | e in t.rows.Values && S.IlikeMatches(e, q.value) :: e in r.body
    ensures r.Ok? && Literal(q.value) ==>
              r.body == S.SearchEvents(t, q.value, CheckPaging(skip, limit).body.skip, CheckPaging(skip, limit).body.limit)
    ensures r.Ok? ==> WindowOf(r.body, S.Unpaged(t, Where(From<Event>(), S.IlikeMatchesOf(q.value))), CheckPaging(skip, limit).body.skip, CheckPaging(skip, limit).body.limit)
  {
    match CheckSearchQuery(q)
    case Error(status, detail) => Error(status, detail)
    case Ok(query) =>
      match CheckPaging(skip, limit)
      case Error(status, detail) => Error(status, detail)
      case Ok(p) =>
        var found := S.SearchEventsAsWritten(t, query, p.skip, p.limit);
        assert Literal(query) ==> found == S.SearchEvents(t, query, p.skip, p.limit) by {
          if Literal(query) {
            S.SearchEventsAgreeOnLiterals(t, query, p.skip, p.limit);
          }
        }
        Ok(found)
  }

  /** `GET /upcoming`. */
  function GetUpcomingEvents(t: Table<Event>, skip: Option<int>, limit: Option<int>, now: Instant): (r: Response<seq<Event>>)
    requires S.WellFormed(t)
    ensures r.Ok? <==> CheckPaging(skip, limit).Ok?
    ensures r.Error? ==> r.status == UnprocessableEntity
    ensures r.Ok? ==> |r.body| <= MaxLimit && S.Chronological(r.body)
    ensures r.Ok? ==> forall e | e in r.body :: e in t.rows.Values && e.startTime >= now
    ensures r.Ok? ==> WindowOf(r.body, S.Unpaged(t, Where(From<Event>(), S.StartsBy(now))), CheckPaging(skip, limit).body.skip, CheckPaging(skip, limit).body.limit)
  {
    match CheckPaging(skip, limit)
    case Error(status, detail) => Error(status, detail)
    case Ok(p) => Ok(S.GetUpcomingEvents(t, p.skip, p.limit, now))
  }

  /** `GET /my`: the caller's own events; a covering page lists all of them. */
  function GetMyEvents(t: Table<Event>, current: AuthModels.User, skip: Option<int>, limit: Option<int>): (r: Response<seq<Event>>)
    requires S.WellFormed(t)
    ensures r.Ok? <==> CheckPaging(skip, limit).Ok?
    ensures r.Error? ==> r.status == UnprocessableEntity
    ensures r.Ok? ==> |r.body| <= MaxLimit && S.Chronological(r.body)
    ensures r.Ok? ==> forall e | e in r.body :: e in t.rows.Values && e.createdBy == current.id
    ensures r.Ok? && Covers(CheckPaging(skip, limit).body, |t.rows|) ==>
              forall e | e in t.rows.Values && e.createdBy == current.id :: e in r.body
    ensures r.Ok? ==> WindowOf(r.body, S.Unpaged(t, Where(From<Event>(), S.CreatedBy(current.id))), CheckPaging(skip, limit).body.skip, CheckPaging(skip, limit).body.limit)
  {
    match CheckPaging(skip, limit)
    case Error(status, detail) => Error(status, detail)
    case Ok(p) => Ok(S.GetEventsByCreator(t, current.id, p.skip, p.limit))
  }

  /** `GET /community/{community_id}`: paging is checked first (422), then the
      community must exist (404), active or not. */
  function GetCommunityEvents(communities: Table<CommunityModels.Community>, t: Table<Event>, communityId: Uuid,
                              skip: Option<int>, limit: Option<int>): (r: Response<seq<Event>>)
    requires C.WellFormed(communities) && S.WellFormed(t)
    ensures CheckPaging(skip, limit).Error? ==> r.Error? && r.status == UnprocessableEntity
    ensures CheckPaging(skip, limit).Ok? && communityId !in communities.rows ==> r == Error(NotFound, CommunityNotFound)
    ensures r.Ok? <==> CheckPaging(skip, limit).Ok? && communityId in communities.rows
    ensures r.Ok? ==> |r.body| <= MaxLimit && S.Chronological(r.body)
    ensures r.Ok? ==> forall e | e in r.body :: e in t.rows.Values && e.communityId == communityId
    ensures r.Ok? ==> WindowOf(r.body, S.Unpaged(t, Where(From<Event>(), S.InCommunity(communityId))), CheckPaging(skip, limit).body.skip, CheckPaging(skip, limit).body.limit)
  {
    match CheckPaging(skip, limit)
    case Error(status, detail) => Error(status, detail)
    case Ok(p) =>
      if C.GetCommunity(communities, communityId).None? then Error(NotFound, CommunityNotFound)
      else Ok(S.GetEventsByCommunity(t, communityId, p.skip, p.limit))
  }

  /** `GET /date-range`: both dates are required (422) and the start must be
      strictly before the end (400); the service then includes both ends. */
  function GetEventsByDateRange(t: Table<Event>, startDate: Option<Instant>, endDate: Option<Instant>,
                                skip: Option<int>, limit: Option<int>): (r: Response<seq<Event>>)
    requires S.WellFormed(t)
    ensures startDate.None? || endDate.None? || CheckPaging(skip, limit).Error? ==> r.Error? && r.status == UnprocessableEntity
    ensures (startDate.Some? && endDate.Some? && CheckPaging(skip, limit).Ok? && startDate.value >= endDate.value)
      ==> r == Error(BadRequest, BadDateRange)
    ensures r.Ok? <==> startDate.Some? && endDate.Some? && CheckPaging(skip, limit).Ok? && startDate.value < endDate.value
    ensures r.Ok? ==> |r.body| <= MaxLimit && S.Chronological(r.body)
    ensures r.Ok? ==> forall e | e in r.body :: e in t.rows.Values && startDate.value <= e.startTime <= endDate.value
    ensures r.Ok? ==> WindowOf(r.body, S.Unpaged(t, S.DateRange(startDate.value, endDate.value)), CheckPaging(skip, limit).body.skip, CheckPaging(skip, limit).body.limit)
  {
    if startDate.None? then Error(UnprocessableEntity, "start_date: Field required")
    else if endDate.None? then Error(UnprocessableEntity, "end_date: Field required")
    else
      match CheckPaging(skip, limit)
      case Error(status, detail) => Error(status, detail)
      case Ok(p) =>
        if startDate.value >= endDate.value then Error(BadRequest, BadDateRange)
        else Ok(S.GetEventsByDateRange(t, startDate.value, endDate.value, p.skip, p.limit))
  }

  /** `GET /{event_id}`: the record whether active or not, or 404. */
  function GetEvent(t: Table<Event>, id: Uuid): (r: Response<Event>)
    requires S.WellFormed(t)
    ensures r.Ok? <==> id in t.rows
    ensures r.Ok? ==> r.body == t.rows[id] && r.body.id == id
    ensures r.Error? ==> r == Error(NotFound, EventNotFound)
  {
    match S.GetEvent(t, id)
    case None => Error(NotFound, EventNotFound)
    case Some(e) => Ok(e)
  }

  /** The creator of the event `id`, if there is one. */
  function OwnerOf(t: Table<Event>, id: Uuid): Option<Uuid>
    requires S.WellFormed(t)
  {
    match S.GetEvent(t, id)
    case None => None
    case Some(e) => Some(e.createdBy)
  }

  /** `PUT /{event_id}`: body validation (422), 404, 403 for anyone but the
      creator, then the update; a null for a NOT NULL column surfaces as an
      unhandled database error (500). */
  function UpdateEvent(t: Table<Event>, id: Uuid, body: EventUpdate, current: AuthModels.User, now: Instant): (r: Reply<Event, Table<Event>>)
    requires S.WellFormed(t)
    ensures !ValidEventUpdate(body) ==> r.response.Error? && r.response.status == UnprocessableEntity
    ensures ValidEventUpdate(body) && id !in t.rows ==> r.response == Error(NotFound, EventNotFound)
    ensures ValidEventUpdate(body) && id in t.rows && t.rows[id].createdBy != current.id ==> r.response == Error(Forbidden, NotEnoughPermissions)
    ensures r.response.Ok? <==> ValidEventUpdate(body) && id in t.rows && t.rows[id].createdBy == current.id && !WritesNull(body)
    ensures r.response.Error? ==> r.state == t
    ensures r.response.Ok? ==> EventChanges(t.rows[id], r.response.body) <= EventUpdateTargets(body) + {UpdatedAtField}
    ensures r.response.Ok? ==> r.response.body.createdBy == t.rows[id].createdBy && r.response.body.communityId == t.rows[id].communityId
    ensures r.response.Ok? ==> r.response.body.updatedAt == now && r.state.rows == t.rows[id := r.response.body] && S.WellFormed(r.state)
  {
    if !ValidEventUpdate(body) then Reply(Error(UnprocessableEntity, "body: invalid"), t)
    else
      match CheckOwner(OwnerOf(t, id), current.id, EventNotFound, NotEnoughPermissions)
      case Error(status, detail) => Reply(Error(status, detail), t)
      case Ok(_) =>
        match S.UpdateEvent(t, id, body, now)
        case Failed(_) => Reply(Error(InternalServerError, "Internal Server Error"), t)
        case Committed(table, e) => Reply(Ok(e), table)
  }

  /** `DELETE /{event_id}`: the creator soft-deletes; the 400 branch is
      unreachable after the existence check. */
  function DeleteEvent(t: Table<Event>, id: Uuid, current: AuthModels.User, now: Instant): (r: Reply<Message, Table<Event>>)
    requires S.WellFormed(t)
    ensures id !in t.rows ==> r.response == Error(NotFound, EventNotFound)
    ensures id in t.rows && t.rows[id].createdBy != current.id ==> r.response == Error(Forbidden, NotEnoughPermissions)
    ensures r.response.Ok? <==> id in t.rows && t.rows[id].createdBy == current.id
    ensures r.response.Error? ==> r.state == t && r.response.status != BadRequest
    ensures r.response.Ok? ==> r.response.body == Message(Deleted)
    ensures r.response.Ok? ==> id in r.state.rows && !r.state.rows[id].isActive && S.WellFormed(r.state)
    ensures r.response.Ok? ==> EventChanges(t.rows[id], r.state.rows[id]) <= {IsActiveField, UpdatedAtField}
    ensures r.response.Ok? ==> r.state.rows == t.rows[id := r.state.rows[id]]
    ensures r.response.Ok? ==> forall k | k in t.rows && k != id :: k in r.state.rows && r.state.rows[k] == t.rows[k]
  {
    match CheckOwner(OwnerOf(t, id), current.id, EventNotFound, NotEnoughPermissions)
    case Error(status, detail) => Reply(Error(status, detail), t)
    case Ok(_) =>
      var d := S.DeleteEvent(t, id, now);
      if !d.ok then Reply(Error(BadRequest, FailedToDelete), t)
      else Reply(Ok(Message(Deleted)), d.table)
  }

  /** `DELETE /{event_id}/permanent`: the creator removes the row. */
  function PermanentlyDeleteEvent(t: Table<Event>, id: Uuid, current: AuthModels.User): (r: Reply<Message, Table<Event>>)
    requires S.WellFormed(t)
    ensures id !in t.rows ==> r.response == Error(NotFound, EventNotFound)
    ensures id in t.rows && t.rows[id].createdBy != current.id ==> r.response == Error(Forbidden, NotEnoughPermissions)
    ensures r.response.Ok? <==> id in t.rows && t.rows[id].createdBy == current.id
    ensures r.response.Error? ==> r.state == t && r.response.status != BadRequest
    ensures r.response.Ok? ==> r.response.body == Message(Purged)
    ensures r.response.Ok? ==> r.state.rows == t.rows - {id} && S.WellFormed(r.state)
  {
    match CheckOwner(OwnerOf(t, id), current.id, EventNotFound, NotEnoughPermissions)
    case Error(status, detail) => Reply(Error(status, detail), t)
    case Ok(_) =>
      var d := S.HardDeleteEvent(t, id);
      if !d.ok then Reply(Error(BadRequest, FailedToPurge), t)
      else Reply(Ok(Message(Purged)), d.table)
  }

  /** Every event whose community still exists was created by that
      community's creator. */
  predicate OwnedWithCommunity(communities: Table<CommunityModels.Community>, t: Table<Event>)
  {
    forall k | k in t.rows && t.rows[k].communityId in communities.rows ::
      t.rows[k].createdBy == communities.rows[t.rows[k].communityId].createdBy
  }

  /** Creating an event through the route keeps events with their
      community's owner, since only that owner may create them. */
  lemma CreateEventKeepsOwnership(communities: Table<CommunityModels.Community>, t: Table<Event>, body: EventCreateBody,
                                  current: AuthModels.User, id: Uuid, now: Instant)
    requires C.WellFormed(communities) && S.WellFormed(t) && id !in t.rows
    requires OwnedWithCommunity(communities, t)
    ensures OwnedWithCommunity(communities, CreateEvent(communities, t, body, current, id, now).state)
  {
  }

  /** Updating an event cannot move it to another community or owner. */
  lemma UpdateEventKeepsOwnership(communities: Table<CommunityModels.Community>, t: Table<Event>, id: Uuid,
                                  body: EventUpdate, current: AuthModels.User, now: Instant)
    requires C.WellFormed(communities) && S.WellFormed(t) && OwnedWithCommunity(communities, t)
    ensures OwnedWithCommunity(communities, UpdateEvent(t, id, body, current, now).state)
  {
    var u := UpdateEvent(t, id, body, current, now);
    if u.response.Ok? {
      forall k | k in u.state.rows && u.state.rows[k].communityId in communities.rows
        ensures u.state.rows[k].createdBy == communities.rows[u.state.rows[k].communityId].createdBy
      {
        if k != id {
          assert u.state.rows[k] == t.rows[k];
        }
      }
    }
  }

  /** Neither delete route moves an event to another community or owner. */
  lemma DeleteEventKeepsOwnership(communities: Table<CommunityModels.Community>, t: Table<Event>, id: Uuid,
                                  current: AuthModels.User, now: Instant)
    requires C.WellFormed(communities) && S.WellFormed(t) && OwnedWithCommunity(communities, t)
    ensures OwnedWithCommunity(communities, DeleteEvent(t, id, current, now).state)
    ensures OwnedWithCommunity(communities, PermanentlyDeleteEvent(t, id, current).state)
  {
    var d := DeleteEvent(t, id, current, now);
    if d.response.Ok? {
      assert CommunityIdField !in EventChanges(t.rows[id], d.state.rows[id]);
      assert CreatedByField !in EventChanges(t.rows[id], d.state.rows[id]);
    }
  }

  /** Community writes never change a community's creator, so they keep the
      ownership relation too. */
  lemma CommunityWritesKeepOwnership(communities: Table<CommunityModels.Community>, t: Table<Event>, id: Uuid,
                                     body: CommunityModels.CommunityUpdate, now: Instant)
    requires C.WellFormed(communities) && id in communities.rows && OwnedWithCommunity(communities, t)
    ensures var u := C.UpdateCommunity(communities, id, body, now);
      u.Committed? ==> OwnedWithCommunity(u.table, t)
    ensures OwnedWithCommunity(C.DeleteCommunity(communities, id, now).table, t)
  {
    var u := C.UpdateCommunity(communities, id, body, now);
    if u.Committed? {
      assert CommunityModels.CreatedByField !in CommunityModels.CommunityChanges(communities.rows[id], u.row);
    }
    var d := C.DeleteCommunity(communities, id, now).table;
    assert CommunityModels.CreatedByField !in CommunityModels.CommunityChanges(communities.rows[id], d.rows[id]);
  }

  /** A soft-deleted event is still served by `GET /{event_id}`, now
      inactive, while a purged one is not found. */
  lemma DeletedEventVisibility(t: Table<Event>, id: Uuid, current: AuthModels.User, now: Instant)
    requires S.WellFormed(t) && id in t.rows && t.rows[id].createdBy == current.id
    ensures var soft := DeleteEvent(t, id, current, now).state;
      GetEvent(soft, id).Ok? && !GetEvent(soft, id).body.isActive
    ensures var hard := PermanentlyDeleteEvent(t, id, current).state;
      GetEvent(hard, id) == Error(NotFound, EventNotFound)
  {
  }
}
