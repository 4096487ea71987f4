/** `app/communities/router.py`: validation, the ownership ladder and the
    status codes around the community service. Handlers receive the caller
    already resolved by `Deps.GetCurrentUser`. */
module CommunityRouter {
  import opened Common
  import opened Store
  import opened Http
  import opened Query
  import opened Text
  import AuthModels
  import opened CommunityModels
  import S = CommunityService

  const CommunityNotFound: string := "Community not found"
  const FailedToDelete: string := "Failed to delete community"
  const FailedToPurge: string := "Failed to permanently delete community"
  const Deleted: string := "Community deleted successfully"
  const Purged: string := "Community permanently deleted"

  /** `POST /`: any authenticated user may create a community, which records
      them as its creator; only a body that fails validation is refused. */
  function CreateCommunity(t: Table<Community>, body: CommunityCreateBody, current: AuthModels.User, id: Uuid, now: Instant): (r: Reply<Community, Table<Community>>)
    requires S.WellFormed(t) && id !in t.rows
    ensures r.response.Ok? <==> ParseCommunityCreate(body).Pass?
    ensures r.response.Error? ==> r.response.status == UnprocessableEntity && r.state == t
    ensures r.response.Ok? ==> r.response.body.createdBy == current.id && r.response.body.id == id
    ensures r.response.Ok? ==> r.state.rows == t.rows[id := r.response.body] && S.WellFormed(r.state)
    ensures r.response.Ok? ==> S.GetCommunity(r.state, id) == Some(r.response.body)
  {
    match ParseCommunityCreate(body)
    case Fail(field) => Reply(Error(UnprocessableEntity, field + ": invalid"), t)
    case Pass(create) =>
      var c := S.CreateCommunity(t, create, current.id, id, now);
      Reply(Ok(c.row), c.table)
  }

  /** `GET /`: paging parameters are checked, then the filtered listing. */
  function GetCommunities(t: Table<Community>, skip: Option<int>, limit: Option<int>, isPublic: Option<bool>, isActive: Option<bool>): (r: Response<seq<Community>>)
    requires S.WellFormed(t)
    ensures r.Ok? <==> CheckPaging(skip, limit).Ok?
    ensures r.Error? ==> r.status == UnprocessableEntity
    ensures r.Ok? ==> |r.body| <= CheckPaging(skip, limit).body.limit <= MaxLimit
    ensures r.Ok? ==> forall c | c in r.body :: c in t.rows.Values && S.AdmittedBy(isPublic, isActive, c)
    ensures r.Ok? ==> WindowOf(r.body, S.Unpaged(t, S.CommunitiesWhere(isPublic, isActive)), CheckPaging(skip, limit).body.skip, CheckPaging(skip, limit).body.limit)
  {
    match CheckPaging(skip, limit)
    case Error(status, detail) => Error(status, detail)
    case Ok(p) => Ok(S.GetCommunities(t, p.skip, p.limit, isPublic, isActive))
  }

  /** `GET /search`: the query and paging are checked, then the search as
      the service writes it, with the query inside an `ILIKE` pattern. For a
      query free of `%`, `_` and backslashes that is the plain-text search. */
  function SearchCommunities(t: Table<Community>, q: Option<string>, skip: Option<int>, limit: Option<int>): (r: Response<seq<Community>>)
    requires S.WellFormed(t)
    ensures r.Ok? <==> CheckSearchQuery(q).Ok? && CheckPaging(skip, limit).Ok?
    ensures r.Error? ==> r.status == UnprocessableEntity
    ensures r.Ok? ==> |r.body| <= MaxLimit
    ensures r.Ok? ==> forall c | c in r.body :: c in t.rows.Values && S.IlikeMatches(c, q.value)
    ensures r.Ok? && Covers(CheckPaging(skip, limit).body, |t.rows|) ==>
              forall c | c in t.rows.Values && S.IlikeMatches(c, q.value) :: c in r.body
    ensures r.Ok? && Literal(q.value) ==>
              r.body == S.SearchCommunities(t, q.value, CheckPaging(skip, limit).body.skip, CheckPaging(skip, limit).body.limit)
    ensures r.Ok? ==> WindowOf(r.body, S.Unpaged(t, S.IlikeWhere(q.value)), CheckPaging(skip, limit).body.skip, CheckPaging(skip, limit).body.limit)
  {
    match CheckSearchQuery(q)
    case Error(status, detail) => Error(status, detail)
    case Ok(query) =>
      match CheckPaging(skip, limit)
      case Error(status, detail) => Error(status, detail)
      case Ok(p) =>
        var found := S.SearchCommunitiesAsWritten(t, query, p.skip, p.limit);
        assert Literal(query) ==> found == S.SearchCommunities(t, query, p.skip, p.limit) by {
          if Literal(query) {
            S.SearchCommunitiesAgreeOnLiterals(t, query, p.skip, p.limit);
          }
        }
        Ok(found)
  }

  /** `GET /my`: the caller's own communities; a covering page lists all of them. */
  function GetMyCommunities(t: Table<Community>, current: AuthModels.User, skip: Option<int>, limit: Option<int>): (r: Response<seq<Community>>)
    requires S.WellFormed(t)
    ensures r.Ok? <==> CheckPaging(skip, limit).Ok?
    ensures r.Error? ==> r.status == UnprocessableEntity
    ensures r.Ok? ==> |r.body| <= MaxLimit
    ensures r.Ok? ==> forall c | c in r.body :: c in t.rows.Values && c.createdBy == current.id
    ensures r.Ok? && Covers(CheckPaging(skip, limit).body, |t.rows|) ==>
              forall c | c in t.rows.Values && c.createdBy == current.id :: c in r.body
    ensures r.Ok? ==> WindowOf(r.body, S.Unpaged(t, S.ByCreatorWhere(current.id)), CheckPaging(skip, limit).body.skip, CheckPaging(skip, limit).body.limit)
  {
    match CheckPaging(skip, limit)
    case Error(status, detail) => Error(status, detail)
    case Ok(p) => Ok(S.GetCommunitiesByCreator(t, current.id, p.skip, p.limit))
  }

  /** `GET /{community_id}`: the record whether active or not, or 404. */
  function GetCommunity(t: Table<Community>, id: Uuid): (r: Response<Community>)
    requires S.WellFormed(t)
    ensures r.Ok? <==> id in t.rows
    ensures r.Ok? ==> r.body == t.rows[id] && r.body.id == id
    ensures r.Error? ==> r == Error(NotFound, CommunityNotFound)
  {
    match S.GetCommunity(t, id)
    case None => Error(NotFound, CommunityNotFound)
    case Some(c) => Ok(c)
  }

  /** The creator of the community `id`, if there is one. */
  function OwnerOf(t: Table<Community>, id: Uuid): Option<Uuid>
    requires S.WellFormed(t)
  {
    match S.GetCommunity(t, id)
    case None => None
    case Some(c) => Some(c.createdBy)
  }

  /** `PUT /{community_id}`: body validation (422), then 404, then 403 for a
      caller who is not the creator, then the update; a null for a NOT NULL
      column surfaces as an unhandled database error (500). */
  function UpdateCommunity(t: Table<Community>, id: Uuid, body: CommunityUpdate, current: AuthModels.User, now: Instant): (r: Reply<Community, Table<Community>>)
    requires S.WellFormed(t)
    ensures !ValidCommunityUpdate(body) ==> r.response.Error? && r.response.status == UnprocessableEntity
    ensures ValidCommunityUpdate(body) && id !in t.rows ==> r.response == Error(NotFound, CommunityNotFound)
    ensures ValidCommunityUpdate(body) && id in t.rows && t.rows[id].createdBy != current.id ==> r.response == Error(Forbidden, NotEnoughPermissions)
    ensures r.response.Ok? <==> ValidCommunityUpdate(body) && id in t.rows && t.rows[id].createdBy == current.id && !WritesNull(body)
    ensures r.response.Error? ==> r.state == t
    ensures r.response.Ok? ==> CommunityChanges(t.rows[id], r.response.body) <= CommunityUpdateTargets(body) + {UpdatedAtField}
    ensures r.response.Ok? ==> r.response.body.updatedAt == now && r.state.rows == t.rows[id := r.response.body] && S.WellFormed(r.state)
  {
    if !ValidCommunityUpdate(body) then Reply(Error(UnprocessableEntity, "body: invalid"), t)
    else
      match CheckOwner(OwnerOf(t, id), current.id, CommunityNotFound, NotEnoughPermissions)
      case Error(status, detail) => Reply(Error(status, detail), t)
      case Ok(_) =>
        match S.UpdateCommunity(t, id, body, now)
        case Failed(_) => Reply(Error(InternalServerError, "Internal Server Error"), t)
        case Committed(table, c) => Reply(Ok(c), table)
  }

  /** `DELETE /{community_id}`: the creator soft-deletes; the service's
      failure branch is unreachable after the existence check, so the 400 is
      never produced. */
  function DeleteCommunity(t: Table<Community>, id: Uuid, current: AuthModels.User, now: Instant): (r: Reply<Message, Table<Community>>)
    requires S.WellFormed(t)
    ensures id !in t.rows ==> r.response == Error(NotFound, CommunityNotFound)
    ensures id in t.rows && t.rows[id].createdBy != current.id ==> r.response == Error(Forbidden, NotEnoughPermissions)
    ensures r.response.Ok? <==> id in t.rows && t.rows[id].createdBy == current.id
    ensures r.response.Error? ==> r.state == t && r.response.status != BadRequest
    ensures r.response.Ok? ==> r.response.body == Message(Deleted)
    ensures r.response.Ok? ==> id in r.state.rows && !r.state.rows[id].isActive && S.WellFormed(r.state)
    ensures r.response.Ok? ==> CommunityChanges(t.rows[id], r.state.rows[id]) <= {IsActiveField, UpdatedAtField}
    ensures r.response.Ok? ==> r.state.rows == t.rows[id := r.state.rows[id]]
    ensures r.response.Ok? ==> forall k | k in t.rows && k != id :: k in r.state.rows && r.state.rows[k] == t.rows[k]
  {
    match CheckOwner(OwnerOf(t, id), current.id, CommunityNotFound, NotEnoughPermissions)
    case Error(status, detail) => Reply(Error(status, detail), t)
    case Ok(_) =>
      var d := S.DeleteCommunity(t, id, now);
      if !d.ok then Reply(Error(BadRequest, FailedToDelete), t)
      else Reply(Ok(Message(Deleted)), d.table)
  }

  /** `DELETE /{community_id}/permanent`: the creator removes the row; as with
      the soft delete, the 400 branch is unreachable. */
  function PermanentlyDeleteCommunity(t: Table<Community>, id: Uuid, current: AuthModels.User): (r: Reply<Message, Table<Community>>)
    requires S.WellFormed(t)
    ensures id !in t.rows ==> r.response == Error(NotFound, CommunityNotFound)
    ensures id in t.rows && t.rows[id].createdBy != current.id ==> r.response == Error(Forbidden, NotEnoughPermissions)
    ensures r.response.Ok? <==> id in t.rows && t.rows[id].createdBy == current.id
    ensures r.response.Error? ==> r.state == t && r.response.status != BadRequest
    ensures r.response.Ok? ==> r.response.body == Message(Purged)
    ensures r.response.Ok? ==> r.state.rows == t.rows - {id} && S.WellFormed(r.state)
  {
    match CheckOwner(OwnerOf(t, id), current.id, CommunityNotFound, NotEnoughPermissions)
    case Error(status, detail) => Reply(Error(status, detail), t)
    case Ok(_) =>
      var d := S.HardDeleteCommunity(t, id);
      if !d.ok then Reply(Error(BadRequest, FailedToPurge), t)
      else Reply(Ok(Message(Purged)), d.table)
  }

  /** A soft-deleted community is still served by `GET /{community_id}`, now
      inactive, while a purged one is not found. */
  lemma DeletedCommunityVisibility(t: Table<Community>, id: Uuid, current: AuthModels.User, now: Instant)
    requires S.WellFormed(t) && id in t.rows && t.rows[id].createdBy == current.id
    ensures var soft := DeleteCommunity(t, id, current, now).state;
      GetCommunity(soft, id).Ok? && !GetCommunity(soft, id).body.isActive
    ensures var hard := PermanentlyDeleteCommunity(t, id, current).state;
      GetCommunity(hard, id) == Error(NotFound, CommunityNotFound)
  {
  }

  /** Only the creator can change a community: for anyone else every write
      route answers 403 and leaves the table as it was. */
  lemma OnlyCreatorWrites(t: Table<Community>, id: Uuid, body: CommunityUpdate, current: AuthModels.User, now: Instant)
    requires S.WellFormed(t) && id in t.rows && t.rows[id].createdBy != current.id
    ensures var u := UpdateCommunity(t, id, body, current, now);
      u.state == t && (ValidCommunityUpdate(body) ==> u.response == Error(Forbidden, NotEnoughPermissions))
    ensures DeleteCommunity(t, id, current, now) == Reply(Error(Forbidden, NotEnoughPermissions), t)
    ensures PermanentlyDeleteCommunity(t, id, current) == Reply(Error(Forbidden, NotEnoughPermissions), t)
  {
  }
}
