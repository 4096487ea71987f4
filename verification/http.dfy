/** What the routers hand back to FastAPI: a body or an `HTTPException`, and
    the checks FastAPI performs on query parameters before a handler runs. */
module Http {
  import opened Common

  datatype Response<+T> = Ok(body: T) | Error(status: int, detail: string)

  /** The `{"message": ...}` body the delete routes return. */
  datatype Message = Message(message: string)

  /** A response together with the table state the request leaves behind. */
  datatype Reply<+T, +S> = Reply(response: Response<T>, state: S)

  const BadRequest: int := 400
  const Forbidden: int := 403
  const NotFound: int := 404
  const UnprocessableEntity: int := 422
  const InternalServerError: int := 500

  const DefaultSkip: nat := 0
  const DefaultLimit: nat := 100
  const MaxLimit: nat := 1000
  const MaxQueryLength: nat := 100

  /** The detail every ownership refusal on an existing resource carries. */
  const NotEnoughPermissions: string := "Not enough permissions"

  /** Validated `skip` and `limit` of a listing. */
  datatype Paging = Paging(skip: nat, limit: nat)

  /** A page that starts at the first row and has room for `n` rows. */
  predicate Covers(p: Paging, n: int)
  {
    p.skip == 0 && p.limit >= n
  }

  /** `skip: int = Query(0, ge=0)` and `limit: int = Query(100, ge=1, le=1000)`:
      an omitted parameter takes its default, and a value out of range is
      refused with 422 rather than clamped. */
  function CheckPaging(skip: Option<int>, limit: Option<int>): (r: Response<Paging>)
    ensures r.Ok? <==> (skip.None? || skip.value >= 0) && (limit.None? || 1 <= limit.value <= MaxLimit)
    ensures r.Ok? ==> 1 <= r.body.limit <= MaxLimit
    ensures r.Ok? ==> r.body.skip == (if skip.Some? then skip.value else 0)
    ensures r.Ok? ==> r.body.limit == (if limit.Some? then limit.value else 100)
    ensures r.Error? ==> r.status == 422
  {
    var s := if skip.Some? then skip.value else DefaultSkip;
    var l := if limit.Some? then limit.value else DefaultLimit;
    if s < 0 then Error(UnprocessableEntity, "skip: Input should be greater than or equal to 0")
    else if l < 1 then Error(UnprocessableEntity, "limit: Input should be greater than or equal to 1")
    else if l > MaxLimit then Error(UnprocessableEntity, "limit: Input should be less than or equal to 1000")
    else Ok(Paging(s, l))
  }

  /** `q: str = Query(..., min_length=1, max_length=100)`: required, 1 to 100 characters. */
  function CheckSearchQuery(q: Option<string>): (r: Response<string>)
    ensures r.Ok? <==> q.Some? && 1 <= |q.value| <= 100
    ensures r.Ok? ==> r.body == q.value
    ensures r.Error? ==> r.status == 422
  {
    match q
    case None => Error(UnprocessableEntity, "q: Field required")
    case Some(s) =>
      if |s| < 1 then Error(UnprocessableEntity, "q: String should have at least 1 character")
      else if |s| > MaxQueryLength then Error(UnprocessableEntity, "q: String should have at most 100 characters")
      else Ok(s)
  }

  /** The ownership ladder every write route runs: the resource must exist
      (404), then its creator must be the caller (403). `owner` is the
      resource's `created_by`, or None when the lookup found nothing. */
  function CheckOwner(owner: Option<Uuid>, actor: Uuid, notFound: string, forbidden: string): (r: Response<Uuid>)
    ensures owner.None? ==> r == Error(NotFound, notFound)
    ensures owner.Some? && owner.value != actor ==> r == Error(Forbidden, forbidden)
    ensures r.Ok? <==> owner == Some(actor)
  {
    match owner
    case None => Error(NotFound, notFound)
    case Some(o) => if o != actor then Error(Forbidden, forbidden) else Ok(o)
  }
}
