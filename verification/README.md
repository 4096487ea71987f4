# nitty core in Dafny

A model of the core of *nitty*: a FastAPI/SQLModel backend for professional
communities and their events. The model covers:

- **Users and authentication.** Registration, password login, JWT access
  tokens, and the `get_current_user` dependency that turns a bearer token into
  an active user.
- **Settings.** The settings the core reads, and the start-up guard that
  refuses placeholder secrets outside the local environment.
- **Communities and events.**
  - The create and update bodies with their validation and defaults.
  - The services: create, get, filtered listings, search, update, soft delete
    and hard delete.
  - The routers wrapped around the services: 422 validation, the
    404 → 403 ownership ladder, and the 400/500 error branches.

Each database table is a `Store.Table<T>`: a map from id to row, plus the
storage order in which a scan returns the rows.

A SQLModel `select(...).where(...).order_by(...).offset(...).limit(...)` is a
`Query.Select` run by `Query.Exec`:

- chained `where` clauses are a conjunction;
- `ORDER BY` is a stable sort, so rows with equal keys keep their scan order;
- `OFFSET`/`LIMIT` is a window.

The following become parameters:

- Ids produced by `uuid4` are a fresh-id parameter.
- `datetime.now()` is an `Instant` parameter, in whole seconds.
- bcrypt is a `Hasher` record of two functions.
- The JWT secret comes in as a parameter.

A JWT is modelled by its claims and its signing key. `Deps.DecodeToken` states
what PyJWT's HS256 `decode` accepts:

- The key must match.
- `exp` must lie in the future.
- A `sub` claim must be a string.

Handlers receive the already-resolved caller. `Deps.GetCurrentUser` is the
resolution: 403 for a token that does not decode, 404 for an unknown user,
400 for an inactive user.

Modules follow the repository:

| module | source |
|---|---|
| `Common` | shared types |
| `Store`, `Query`, `Counting` | the database |
| `Text` | `ILIKE` and case-insensitive substring search |
| `Http` | FastAPI's query-parameter checks and the ownership ladder |
| `Config` | `app/config.py` |
| `AuthModels`, `AuthService`, `AuthRouter`, `Deps` | `app/auth/*`, `app/deps.py` |
| `CommunityModels`, `CommunityService`, `CommunityRouter` | `app/communities/*` |
| `EventModels`, `EventService`, `EventRouter` | `app/events/*` |

Notable behaviours of the code, all modelled as written:

- **End time.** Nothing checks that `end_time` is not before `start_time`
  (`EventModels.EndBeforeStartAccepted`).
- **Soft delete is reversible.** `is_active` is an ordinary update field, so a
  soft delete can be undone (`CommunityService.SoftDeleteIsReversible`).
- **Get after soft delete.** `get` returns soft-deleted records.
- **Out-of-range `limit`.** It is refused with 422, not clamped.
- **Ordering.**
  - Community listings have no `ORDER BY` at all, so they come in storage
    order.
  - Event listings are ordered by `start_time` only, with no id tiebreak.
  - The paging partition lemmas therefore hold over one fixed table state and
    its scan order.
- **Upcoming events** are not filtered by `is_active`
  (`EventService.DeletedEventStillUpcoming`).
- **Tokens.** Only `exp` and `sub` are issued; there is no `iat` claim.
- **Search.** The search routes paste the query unescaped into an `ILIKE`
  pattern (see "## Findings"). The routes are modelled as written; a
  plain-text search is modelled beside them and proved equal to them for
  queries without `%`, `_` or backslashes.
- **Email normalisation.** Sign-up stores the address as `EmailStr`
  normalises it, while login compares the form's `username` as typed
  (`AuthRouter.TypedEmailLoginRefused`).

## Model

| member | source | states |
|---|---|---|
| Config.CheckDefaultSecret | app/config.py:51-60 | silent exactly when the value is not "changethis"; for the placeholder a warning in the local environment and an error in staging/production, both carrying the variable's name |
| Config.EnforceNonDefaultSecrets | app/config.py:62-67 | settings are rejected iff the environment is not local and SECRET_KEY or POSTGRES_PASSWORD is the placeholder; SECRET_KEY is reported first; when accepted, one warning per placeholder secret, and only in the local environment |
| Config.DefaultsAreAccepted | app/config.py:16-23 | default settings with a random secret pass validation with no warning, and the token lifetime is 60*24*8 = 11520 minutes |
| AuthModels.CreateFromRegister | app/auth/router.py:53 | a sign-up body becomes an active, non-superuser create request with the same email, password and name, and it is valid exactly when the sign-up body was |
| AuthService.CreateAccessToken | app/auth/service.py:20-24 | the token is signed with the secret, its subject is the user id as text, and it expires `expires_delta` after issue |
| AuthService.GetUserByEmail | app/auth/service.py:63-69 | finds a stored user with that email, and finds none exactly when no stored user has it |
| AuthService.Authenticate | app/auth/service.py:72-84 | a returned user has the given email and a hash the password verifies against; no user is returned for an unknown email |
| AuthService.AuthenticateExactly | app/auth/service.py:72-84 | with unique emails, authentication yields user u iff u is stored, has that email, and its hash verifies the password |
| AuthService.CreateUser | app/auth/service.py:39-46 | fails with a unique-email violation iff the email is taken; otherwise stores exactly one new user holding the hash of the password (never the password), and emails stay unique |
| AuthService.ApplyUserUpdate | app/auth/service.py:49-60 | only fields the body sets can change (a password changes the stored hash), and the id never changes |
| AuthService.UpdateUser | app/auth/service.py:49-60 | the failure cases: a null password cannot be hashed, a null email violates NOT NULL, and an email another user holds violates uniqueness; on success only the set fields change, a new password replaces the hash, and the table stays well formed |
| AuthService.UpdateUserWritesValues | app/auth/service.py:49-60 | the values the body sets are the ones stored |
| Deps.DecodeToken | app/deps.py:23-32 | a token decodes iff it was signed with the secret, has not expired, and any `sub` claim is a string; the decoded subject is that string |
| Deps.GetCurrentUser | app/deps.py:22-38 | 403 "Could not validate credentials" for a token that does not decode; success iff the subject names a stored active user, whose id is the token's subject |
| Deps.GetCurrentUserLadder | app/deps.py:33-37 | a decodable token for a missing user gives 404 "User not found", and for an inactive user 400 "Inactive user" |
| Deps.SuperuserIgnored | app/deps.py:22-38 | flipping any user's superuser flag changes no decision of the dependency |
| Deps.TokenRoundTrip | app/auth/service.py:20-24 | a token issued at t with lifetime d decodes to its subject exactly while now < t + d, and is refused afterwards |
| Deps.ForeignKeyRefused | app/deps.py:24-26 | a token signed with any other key is refused |
| AuthRouter.LoginAccessToken | app/auth/router.py:18-39 | 400 "Incorrect email or password" when authentication fails, 400 "Inactive user" for an inactive account; otherwise a bearer token for that user expiring ACCESS_TOKEN_EXPIRE_MINUTES later |
| AuthRouter.InactiveLoginRefused | app/auth/router.py:31-32 | an inactive account is refused even with the right password |
| AuthRouter.RegisterUser | app/auth/router.py:42-55 | 422 for an invalid body; 400 when the normalised email exists; otherwise exactly one new active non-superuser is stored under the normalised email with the hashed password, and nothing changes on an error |
| AuthRouter.RegisterThenLogin | app/auth/router.py:18-55 | given a hasher that verifies its own hashes, signing up and then logging in with the normalised email and the same password yields a token for the new user |
| AuthRouter.TypedEmailLoginRefused | app/auth/router.py:25-30 | after signing up with an address that normalisation rewrites, logging in with the address as typed is refused with 400 "Incorrect email or password" unless another account holds it |
| AuthRouter.LoginTokenAuthenticates | app/auth/router.py:33-39 | a login token resolves to its user on every request before it expires, and to an error after |
| Http.CheckPaging | app/events/router.py:48-49 | `skip` >= 0 and 1 <= `limit` <= 1000 are accepted with defaults 0 and 100; anything else is a 422, never clamped |
| Http.CheckSearchQuery | app/events/router.py:71 | the search query is required and must be 1 to 100 characters long, else 422 |
| Http.CheckOwner | app/communities/router.py:102-110 | 404 when the resource is missing, 403 when it belongs to someone else; passes iff the caller is the creator |
| Store.Insert | app/communities/service.py:20-21 | adding a row with a fresh id keeps the table well formed and grows it by exactly that row |
| Store.Remove | app/communities/service.py:104-105 | deleting a row keeps the table well formed, drops exactly that key, and shrinks the table by one |
| Store.ScanDistinct | app/communities/service.py:53 | a scan of a table keyed by id returns no row twice |
| Store.CoveringPageExactlyOnce | app/communities/service.py:52-53 | a page from 0 as long as the table returns each row the WHERE chain admits exactly once, and no other row |
| Query.SortBy | app/events/service.py:58 | `ORDER BY` returns a sorted permutation of its input |
| Query.Page | app/communities/service.py:52 | `OFFSET`/`LIMIT` returns exactly min(limit, rows left after the offset) rows, the i-th being the row at position offset + i; a window from 0 at least as long as the input returns all of it |
| Query.WhereConjoins | app/communities/service.py:46-50 | chaining `.where(c)` admits a row iff the old chain admits it and c holds |
| Query.Matching | app/events/service.py:58 | the rows before the window are exactly the scanned rows satisfying every clause, sorted when a key is given |
| Query.Exec | app/events/service.py:58-59 | a result has exactly min(limit, matches left after the offset) rows, all scanned rows satisfying the WHERE clause, in key order; a window from 0 covering the scan returns every matching row; the i-th row is the (offset + i)-th matching row |
| Query.ExecPagesPartition | app/events/service.py:58 | consecutive `offset(i*size).limit(size)` pages over one scan concatenate back to the whole ordered result |
| Counting.MatchingExactlyOnce | app/events/service.py:58-59 | over a scan without repeats, the ordered result holds each admitted row exactly once and nothing else |
| Text.IlikeIsSubstring | app/communities/service.py:114-118 | for a query with no `%`, `_` or backslash, `ILIKE '%q%'` matches iff the text contains q ignoring case |
| Text.UnescapedWildcardMatches | app/communities/service.py:115 | the query "_" pasted into the pattern matches "x", which contains no underscore |
| CommunityModels.ParseCommunityCreate | app/communities/models.py:13-21 | a body is accepted iff it has a non-null name of at most 100 characters, a description of at most 500, and no null flag; omitted fields default to null description, public and active |
| CommunityModels.ParseCommunityRoundTrip | app/communities/models.py:13-21 | every valid create request, sent explicitly, parses back to itself |
| CommunityModels.CommunityDefaults | app/communities/models.py:15-17 | a body naming only the community yields a public, active community without description |
| CommunityModels.ApplyCommunityUpdate | app/communities/service.py:73-76 | only the fields the body sets, plus `updated_at`, change; each set value is written; id, creator and creation time never change |
| CommunityService.CreateCommunity | app/communities/service.py:13-24 | the new community carries the request's fields, the caller as creator and the creation time, and is the only row added |
| CommunityService.GetCommunity | app/communities/service.py:27-32 | finds the record iff its id is stored, soft-deleted or not |
| CommunityService.CommunitiesWhere | app/communities/service.py:44-50 | the WHERE chain admits a community iff each flag that is given matches |
| CommunityService.GetCommunities | app/communities/service.py:35-55 | at most `limit` communities, each stored and matching every given flag; the result is the window from `skip` of the matching communities in storage order |
| CommunityService.CommunityPagingPartitions | app/communities/service.py:35-55 | paging until the table is covered returns every matching community exactly once, in storage order |
| CommunityService.ByCreatorWhere | app/communities/service.py:62 | the WHERE clause admits a community iff the given user created it |
| CommunityService.GetCommunitiesByCreator | app/communities/service.py:58-66 | at most `limit` communities, each stored and created by the given user; a page from 0 as long as the table holds all of that user's communities; the result is the window from `skip` of that user's communities in storage order |
| CommunityService.CommunitiesByCreatorExactlyOnce | app/communities/service.py:58-66 | a covering page lists each of the user's communities exactly once and nothing else |
| CommunityService.MentionsWhere | app/communities/service.py:114-117 | corrected WHERE: admits a community iff its name or present description contains the query ignoring case |
| CommunityService.IlikeWhere | app/communities/service.py:114-117 | WHERE as written: admits a community iff its name or present description matches the unescaped `ILIKE '%q%'` pattern |
| CommunityService.SearchCommunities | app/communities/service.py:110-121 | corrected search: at most `limit` communities, each whose name or present description contains the query ignoring case; a covering page holds every such community; the result is the window from `skip` of the matching communities in storage order |
| CommunityService.SearchCommunitiesExactlyOnce | app/communities/service.py:110-121 | corrected search: a covering page lists a community exactly once iff it is stored and mentions the query, otherwise not at all |
| CommunityService.SearchCommunitiesAsWritten | app/communities/service.py:110-121 | search as written: each result matches the unescaped `ILIKE '%q%'` pattern on name or description; a covering page holds every match; the result is the window from `skip` of the matching communities in storage order |
| CommunityService.SearchCommunitiesAsWrittenExactlyOnce | app/communities/service.py:110-121 | search as written: a covering page lists a community exactly once iff it is stored and the pattern matches it, otherwise not at all |
| CommunityService.SearchCommunitiesAgreeOnLiterals | app/communities/service.py:114-118 | for queries without wildcard characters, the search as written returns exactly the corrected search's result |
| CommunityService.SearchCommunitiesWildcardLeak | app/communities/service.py:114-118 | a community named "x" is returned for the query "_" as written but not by the corrected search |
| CommunityService.UpdateCommunity | app/communities/service.py:69-81 | fails (NOT NULL) iff the body writes null to name, is_public or is_active; otherwise only set fields and `updated_at` change, and the creator is kept |
| CommunityService.DeleteCommunity | app/communities/service.py:84-95 | False iff the id is unknown, and then nothing changes; otherwise the record stays, inactive, with only `is_active` and `updated_at` changed |
| CommunityService.DeleteCommunityIdempotent | app/communities/service.py:84-95 | soft-deleting twice gives the same outcome and record as once, up to the timestamp |
| CommunityService.SoftDeleteIsReversible | app/communities/models.py:24-28 | after a soft delete, an update setting `is_active` to true reactivates the community under the same creator |
| CommunityService.SoftDeletedListing | app/communities/service.py:49-50 | a soft-deleted community leaves the `is_active=true` listing and appears in the `is_active=false` one |
| CommunityService.HardDeleteCommunity | app/communities/service.py:98-107 | False iff the id is unknown; afterwards the id is not found and every other community is as before |
| CommunityRouter.CreateCommunity | app/communities/router.py:20-30 | any authenticated user may create; only an invalid body is refused (422); the caller becomes creator and the community is then found by id |
| CommunityRouter.GetCommunities | app/communities/router.py:33-49 | succeeds iff paging is valid; at most `limit` (<= 1000) stored communities matching the flags; the body is the window from `skip` of the matching communities |
| CommunityRouter.SearchCommunities | app/communities/router.py:52-63 | succeeds iff the query and paging are valid; runs the search as written, so every result matches the `ILIKE` pattern and a covering page holds every match; for a query without wildcard characters the body is the plain-text search result; the body is the window from `skip` of the pattern's matches |
| CommunityRouter.GetMyCommunities | app/communities/router.py:66-77 | succeeds iff paging is valid; every result was created by the caller, and a covering page holds all of the caller's communities; the body is the window from `skip` of the caller's communities |
| CommunityRouter.GetCommunity | app/communities/router.py:80-91 | the stored record, active or not, or 404 "Community not found" |
| CommunityRouter.UpdateCommunity | app/communities/router.py:94-115 | 422 for an invalid body, then 404, then 403 "Not enough permissions" for anyone but the creator, then 500 for a NOT NULL violation; succeeds iff none applies, and only then does the table change |
| CommunityRouter.DeleteCommunity | app/communities/router.py:118-141 | 404, then 403 for anyone but the creator; the 400 branch is unreachable; on success the community stays, inactive; no other community changes and none is added |
| CommunityRouter.PermanentlyDeleteCommunity | app/communities/router.py:144-169 | 404, then 403 for anyone but the creator; the 400 branch is unreachable; on success exactly that row is removed |
| CommunityRouter.DeletedCommunityVisibility | app/communities/router.py:80-91 | after a soft delete, GET still serves the community (inactive); after a purge, GET answers 404 |
| CommunityRouter.OnlyCreatorWrites | app/communities/router.py:109-110 | for a non-creator, update (with a valid body), delete and purge all answer 403 and leave the table unchanged |
| EventModels.ParseEventCreate | app/events/models.py:14-27 | a body is accepted iff it has a title of at most 200 characters, a start time and a community id, bounded description/location, `max_attendees` null or >= 1, and no null flag; the documented defaults are applied |
| EventModels.ParseEventRoundTrip | app/events/models.py:14-27 | every valid create request, sent explicitly, parses back to itself |
| EventModels.EventDefaults | app/events/models.py:18-23 | a body with only title, start time and community yields an offline, active, public event with no end, location, description or attendee cap |
| EventModels.EndBeforeStartAccepted | app/events/models.py:17-18 | an end time before the start time is accepted |
| EventModels.ApplyEventUpdate | app/events/service.py:86-96 | only the fields the body sets, plus `updated_at`, change; each set value is written; owner and community never change |
| EventService.CreateEvent | app/events/service.py:13-22 | the new event carries the request's fields, the caller as creator and the creation time, and is the only row added |
| EventService.GetEvent | app/events/service.py:25-30 | finds the record iff its id is stored, soft-deleted or not |
| EventService.EventsWhere | app/events/service.py:44-56 | the WHERE chain admits an event iff each given filter matches and, with `upcoming_only`, it starts now or later |
| EventService.GetEvents | app/events/service.py:33-61 | at most `limit` stored events matching every filter, earliest start first; the result is the window from `skip` of all matching events ordered by start time |
| EventService.EventPagingPartitions | app/events/service.py:33-61 | paging until the table is covered returns every matching event exactly once, and the concatenated pages are in start-time order |
| EventService.GetEventsByCreator | app/events/service.py:64-72 | at most `limit` stored events of the given creator, earliest start first; a page from 0 as long as the table holds all of them; the result is the window from `skip` of the creator's events ordered by start time |
| EventService.EventsByCreatorExactlyOnce | app/events/service.py:64-72 | a covering page lists each of the creator's events exactly once and nothing else |
| EventService.ListingExactlyOnce | app/events/service.py:68-69 | an ordered page from 0 as long as the table lists each event its WHERE chain admits exactly once |
| EventService.GetEventsByCommunity | app/events/service.py:75-83 | at most `limit` stored events of the given community, earliest start first; the result is the window from `skip` of the community's events ordered by start time |
| EventService.GetUpcomingEvents | app/events/service.py:140-148 | at most `limit` stored events starting now or later, earliest first; the result is the window from `skip` of the upcoming events ordered by start time |
| EventService.ListingsAreFilteredEvents | app/events/service.py:33-83 | the upcoming and per-community listings equal the general listing with only that filter set |
| EventService.GetEventsByDateRange | app/events/service.py:151-166 | at most `limit` stored events starting within [start, end], both ends included, earliest first; the result is the window from `skip` of the in-range events ordered by start time |
| EventService.DateRangeComplete | app/events/service.py:160-162 | every stored event starting within the range is in a page that covers the table |
| EventService.SearchEvents | app/events/service.py:125-137 | corrected search: every result's title, description or location contains the query ignoring case; earliest first; a covering page holds every such event; the result is the window from `skip` of the matching events ordered by start time |
| EventService.SearchEventsExactlyOnce | app/events/service.py:125-137 | corrected search: a covering page lists an event exactly once iff it is stored and mentions the query, otherwise not at all |
| EventService.SearchEventsAsWritten | app/events/service.py:125-137 | search as written: every result matches the unescaped `ILIKE '%q%'` pattern on title, description or location; a covering page holds every match; the result is the window from `skip` of the matching events ordered by start time |
| EventService.SearchEventsAsWrittenExactlyOnce | app/events/service.py:125-137 | search as written: a covering page lists an event exactly once iff it is stored and the pattern matches it, otherwise not at all |
| EventService.SearchEventsAgreeOnLiterals | app/events/service.py:129-133 | for queries without wildcard characters, the search as written returns exactly the corrected search's result |
| EventService.SearchEventsWildcardLeak | app/events/service.py:129-133 | an event titled "x" matches the query "_" as written but not the corrected search |
| EventService.UpdateEvent | app/events/service.py:86-96 | fails (NOT NULL) iff the body writes null to title, start_time, is_online, is_active or is_public; otherwise only set fields and `updated_at` change |
| EventService.DeleteEvent | app/events/service.py:99-110 | False iff the id is unknown, and then nothing changes; otherwise the record stays, inactive, with only `is_active` and `updated_at` changed |
| EventService.DeleteEventIdempotent | app/events/service.py:99-110 | soft-deleting twice gives the same outcome and record as once, up to the timestamp |
| EventService.DeletedEventStillUpcoming | app/events/service.py:140-148 | a soft-deleted event that has not started is still in the upcoming listing |
| EventService.HardDeleteEvent | app/events/service.py:113-122 | False iff the id is unknown; afterwards the id is not found and every other event is as before |
| EventRouter.CreateEvent | app/events/router.py:20-42 | 422 for an invalid body, 404 "Community not found", 403 unless the caller created the community; on success the event is the caller's, in that community, and the only row added |
| EventRouter.GetEvents | app/events/router.py:45-65 | succeeds iff paging is valid; stored events matching the filters, at most `limit`, earliest first; the body is the window from `skip` of the ordered matching events |
| EventRouter.SearchEvents | app/events/router.py:68-79 | succeeds iff the query and paging are valid; runs the search as written, so every result matches the `ILIKE` pattern, earliest first, and a covering page holds every match; for a query without wildcard characters the body is the plain-text search result; the body is the window from `skip` of the pattern's matches, ordered by start time |
| EventRouter.GetUpcomingEvents | app/events/router.py:82-90 | succeeds iff paging is valid; every result starts now or later; the body is the window from `skip` of the ordered upcoming events |
| EventRouter.GetMyEvents | app/events/router.py:93-104 | succeeds iff paging is valid; every result was created by the caller, earliest first, and a covering page holds all of the caller's events; the body is the window from `skip` of the caller's ordered events |
| EventRouter.GetCommunityEvents | app/events/router.py:107-123 | 422 for bad paging before 404 for an unknown community; results all belong to that community; the body is the window from `skip` of the community's ordered events |
| EventRouter.GetEventsByDateRange | app/events/router.py:126-147 | 422 when a date is missing; 400 "Start date must be before end date" unless start < end; results start within [start, end]; the body is the window from `skip` of the ordered in-range events |
| EventRouter.GetEvent | app/events/router.py:150-159 | the stored record, active or not, or 404 "Event not found" |
| EventRouter.UpdateEvent | app/events/router.py:162-181 | 422, then 404, then 403 for anyone but the creator, then 500 for a NOT NULL violation; only on success does the table change, keeping owner and community |
| EventRouter.DeleteEvent | app/events/router.py:184-203 | 404, then 403 for anyone but the creator; the 400 branch is unreachable; on success the event stays, inactive; no other event changes and none is added |
| EventRouter.PermanentlyDeleteEvent | app/events/router.py:206-227 | 404, then 403 for anyone but the creator; the 400 branch is unreachable; on success exactly that row is removed |
| EventRouter.CreateEventKeepsOwnership | app/events/router.py:32-41 | events whose community exists stay owned by that community's creator when an event is created |
| EventRouter.UpdateEventKeepsOwnership | app/events/models.py:30-39 | updating an event cannot move it to another community or owner, so that ownership relation survives |
| EventRouter.DeleteEventKeepsOwnership | app/events/router.py:184-227 | neither delete route breaks that ownership relation |
| EventRouter.CommunityWritesKeepOwnership | app/communities/models.py:24-28 | community updates and soft deletes never change a creator, so the relation survives them too |
| EventRouter.DeletedEventVisibility | app/events/router.py:150-159 | after a soft delete, GET still serves the event (inactive); after a purge, GET answers 404 |

## Left out

- **I/O and infrastructure.** Logging, the database engine and session
  lifecycle, `app/main.py`, `app/database.py`, and the SQL text itself. Tables
  are pure values.
- **The login form.** The OAuth2 password form parser is not modelled; the
  login route receives `username` and `password` directly.
- **Transport-level authentication.**
  - Route matching and path-parameter UUID parsing (a malformed UUID is a 422
    in FastAPI) are not modelled.
  - The missing or malformed bearer header, which `OAuth2PasswordBearer`
    answers with 401, is not modelled.
  - Handlers take the resolved user. `Deps.GetCurrentUser` models the
    resolution itself.
  - The model does not fix the order between an authentication failure and a
    422 for the same request.
- **Cryptography.** bcrypt and the HMAC signature are abstract. A token is
  "signed" by recording its key, and hashing is a caller-supplied `Hasher`.
- **Email.** The `EmailStr` format check is not modelled; only its length
  limit is, on the address as submitted. The normalisation `EmailStr` applies
  (email-validator's lower-cased domain and the like) is the parameter
  `normalizeEmail` of `AuthRouter.RegisterUser`, not a definition.
- **Text.** Case folding is ASCII only, with no Unicode case mapping.
- **Time.**
  - Time is whole seconds.
  - The naive/aware datetime mix is not modelled: `datetime.now` for events,
    `datetime.utcnow` for communities, UTC for tokens.
- **Database behaviour.**
  - Foreign keys are not enforced. Hard-deleting a community that still has
    events, or a row whose creator is gone, is a database error in PostgreSQL
    that the model does not raise.
  - The order of rows with equal `start_time` is taken to be scan order.
    PostgreSQL leaves it unspecified.
- **Concurrency.** Concurrent requests and races between writers are not
  modelled; each route is one atomic step on one table state.
- **Settings.** Settings not read by the core (database pool sizes,
  `SQLALCHEMY_DATABASE_URI`, `EMAIL_TEST_USER`) are not modelled. Loading
  settings from the environment is not modelled.
- **Validation error detail.** A 422 response carries one field name rather
  than pydantic's full error list. When FastAPI reports several invalid
  parameters at once, the model reports the first.
- Deps.DecodeToken: other PyJWT failure modes (a wrong algorithm header, a
  non-numeric `exp`, a malformed segment) are folded into the single
  `Garbled` token.
- Deps.GetCurrentUser: a `sub` claim that is not a UUID is treated as an
  unknown user (404), whereas the database driver would fail to convert it
  and the request would end in a server error.
- AuthService.Authenticate: `verify_password` is called twice in the source
  (once only for logging); the model calls the verifier once, as a pure
  function.

## Findings

| source | as written | input that shows it | evidently intended | confidence | as-written member | corrected member |
|---|---|---|---|---|---|---|
| app/communities/service.py:114-118, app/events/service.py:129-133 | the search string is pasted unescaped into `ILIKE '%q%'`, so `_`, `%` and `\` in the query act as pattern syntax | query "_" against a community named "x": `ILIKE '%_%'` matches, though "x" contains no underscore | a case-insensitive substring search for the literal query text | not executed | CommunityService.SearchCommunitiesAsWritten, EventService.SearchEventsAsWritten, CommunityService.SearchCommunitiesWildcardLeak, EventService.SearchEventsWildcardLeak, Text.UnescapedWildcardMatches | CommunityService.SearchCommunities, EventService.SearchEvents, CommunityService.SearchCommunitiesAgreeOnLiterals, EventService.SearchEventsAgreeOnLiterals, Text.IlikeIsSubstring |
