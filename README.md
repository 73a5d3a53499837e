# fastapi-llm-blog-writer: blog, token and auth core in Dafny

This project models the request handlers of the FastAPI blog service: owner-scoped CRUD on
blogs, the two blog listings, JWT access/refresh tokens with a blacklist, the
signup/login/logout/refresh lifecycle, the bearer-header dependencies, and the uniform
`{message, status, results}` response envelope with its exception handler.

The database becomes a `Store` object with three tables (users, blogs, blacklisted tokens) and
two serial counters. The handlers that write to the database are methods that update the store
in place. The read-only handlers and the listings are functions over the store's tables, or over
a scan of the blogs table for the listings. The clock is an integer parameter `now` in seconds.

Every handler returns an `Outcome`:
- `Done(response)` is a normal answer;
- `Raised(HttpError)` is an `HTTPException`, which the exception handler turns into an envelope;
- `Crashed` is an exception nobody catches, which becomes a 500.

The modules:

- `Envelope` models app/utils.py and app/exceptions.py, plus the message constants of
  app/global_constants.py.
- `Jwt` is a deterministic token codec. It stands in for PyJWT's HS256 `encode`/`decode` and its
  expiry check.
- `Numerals` models Python's `str`/`int` on integers.
- `Strings` holds `split`, `partition`, prefixes and ASCII lowering.
- `Passwords` stands in for the password hasher.
- `Database` holds the tables, their constraints and the JSON projections of rows.
- `JwtUtils` models app/jwt_utils.py.
- `AuthUtil` models app/auth_util.py and FastAPI's `HTTPBearer`.
- `AuthRoutes` models app/auth/routes.py.
- `SqlLike` models PostgreSQL `LIKE`/`ILIKE`.
- `BlogListing` models the two listing queries of app/blog/routes.py.
- `BlogRoutes` models the handlers of app/blog/routes.py.

Where the code and its intended behaviour differ, the model follows the code:

- **The search is a pattern, not a substring test.** The paginated listing passes the search
  text straight into `ILIKE '%…%'` without escaping it. So `%`, `_` and `\` in a search term act
  as wildcards or as an escape. `SqlLike.SearchTermIsAPattern` shows this: the search `_` keeps
  the title `a`. The plain case-insensitive substring search holds only for terms without those
  characters (`BlogListing.LiteralSearchIsSubstring`).
- **Access and refresh tokens are indistinguishable.** They carry the same claims and are signed
  with the same key. A refresh token is therefore the very string of an access token minted
  604800 - 3600 seconds later.
- **Tokens minted in the same second are identical.** A refresh made in the same second as the
  login blacklists the caller's access token and hands back that same token, which then no
  longer verifies (`AuthRoutes.RefreshInLoginSecond`).
- **Several names the handlers use are declared nowhere in the repository:**
  - `verify_access_token` and `verify_refresh_token`, imported from app/jwt_utils.py;
  - the `ErrorMessage` members `EMAIL_ALREADY_EXISTS`, `INVALID_CREDENTIALS`, `INVALID_TOKEN`,
    `LOGOUT_FAILED` and `AUTHORIZATION_HEADER_MISSING_OR_INVALID`, and the `SuccessMessage`
    member `LOGOUT_SUCCESS`;
  - the `BlacklistedToken` table imported from app/auth/model.py;
  - `get_db`, imported from app/database.py by app/auth_util.py, app/auth/routes.py and
    app/blog/routes.py;
  - `PaginatedResponse`, imported from app/blog/schema.py by app/blog/routes.py. As written, the
    blog routes module cannot be imported.

  The model makes these assumptions about them:
  - the access check is `verify_token` with the blacklist;
  - the refresh check decodes the token and reads its subject without the blacklist, since the
    call passes no session;
  - the messages are the `Message` enumeration, and each undeclared member's text is its own
    name (`LOGOUT_SUCCESS`, `EMAIL_ALREADY_EXISTS`, `INVALID_CREDENTIALS`, `INVALID_TOKEN`,
    `LOGOUT_FAILED` and `AUTHORIZATION_HEADER_MISSING_OR_INVALID` are not declared in
    app/global_constants.py, so as written each of those references would raise AttributeError
    when reached);
  - the blacklist table has the columns `token` and `expires_at` that app/jwt_utils.py uses;
  - `get_db` yields one session per request. The `current_user` dependency and the handler
    share it, so both see the one `Store`, and a rollback in one is seen by the other;
  - `PaginatedResponse` only shapes the declared `response_model`. The handler returns its own
    JSON response, which bypasses that model, so the type has no effect on the answer.

## Model

| member | source | states |
|---|---|---|
| `Envelope.ResponseSchema` | app/utils.py:5-13 | The response has the given status code. Its body has exactly the keys message, status and results. Reading the envelope back gives the message unchanged, a status field equal to the HTTP status, and the schema as results. |
| `Envelope.ReadEnvelopeInverse` | app/utils.py:8-12 | Every response a client reads as an envelope is the one get_response_schema builds from that envelope's parts. |
| `Envelope.ResponseSchemaInjective` | app/utils.py:6-12 | Different (schema, message, status) arguments give different responses. |
| `Envelope.HttpExceptionHandler` | app/exceptions.py:9-13 | The exception's status code is kept in both the response and the envelope. The message is always "Something went wrong. Please try again later.". A dict detail is passed through as results. Any other detail gives results equal to exactly {"detail": [detail]}. |
| `Envelope.HandlerMessageIsFixed` | app/exceptions.py:10-13 | For one status, the message never depends on the detail. Two exceptions give the same response exactly when their results agree. |
| `Envelope.DictAndTextDetailCollide` | app/exceptions.py:10 | A string detail and the dict {"detail": [string]} give the same response, so a client cannot tell them apart. |
| `Numerals.IntRoundTrip` | app/jwt_utils.py:19-33 | int(str(n)) == n for every integer, so a user id survives the trip through the string "sub" claim. |
| `Strings.JoinSplit` | app/auth_util.py:33 | Joining the pieces of `s.split(sep)` with sep gives s back. This is the partner of the split that extracts the token. |
| `Strings.PartitionAtFirst` | app/auth_util.py:11 | Partitioning at a character splits around its first occurrence. HTTPBearer splits the header this way into scheme and credentials. |
| `Jwt.DecodeEncode` | app/jwt_utils.py:17-37 | A token minted from claims whose subject holds no '.' decodes to exactly those claims before its expiry. From the expiry on, it decodes to the expired-signature error. |
| `Passwords.VerifyHashed` | app/auth/routes.py:27-40 | A password verifies against its own hash, and a different password never does. |
| `Database.UserResponseJson` | app/auth/schema.py:23-27 | The UserResponse projection has exactly the keys id, email, first_name and last_name. It never contains hashed_password. |
| `Database.StoredTitle` | app/blog/model.py:16 | The VARCHAR(255) title column accepts a value exactly when every character past the 255th is a space. It then stores exactly the first 255 characters, and a value within the limit unchanged. |
| `JwtUtils.VerifyToken` | app/jwt_utils.py:27-37 | A token in the blacklist yields None, and so does a token that fails to decode (expired or invalid). A subject is returned only for a decodable token, and it is int() of its "sub" claim. |
| `JwtUtils.BlacklistToken` | app/jwt_utils.py:39-57 | It returns True exactly when the token decodes and nothing else fails. It then appends exactly one (token, exp) entry and never looks for an earlier one. Otherwise the blacklist is unchanged. |
| `JwtUtils.DecodeCreated` | app/jwt_utils.py:17-25 | A minted token decodes to sub = str(user_id) and exp = issue time + lifetime, or to the expired error from exp on. |
| `JwtUtils.TokenLifetimes` | app/jwt_utils.py:14-25 | An access token is valid for exactly 3600 s and a refresh token for exactly 604800 s. Their exp claims are the issue time plus those constants. |
| `JwtUtils.FreshTokenVerifies` | app/jwt_utils.py:17-33 | A freshly minted token that is unexpired and not blacklisted verifies to the user id it was minted for. |
| `JwtUtils.ExpiredTokenRejected` | app/jwt_utils.py:34-35 | An expired token yields None, whatever the blacklist holds. |
| `JwtUtils.AccessAndRefreshIndistinguishable` | app/jwt_utils.py:17-25 | A refresh token is exactly the string of an access token minted 604800 - 3600 s later, so verify_token accepts either kind. |
| `JwtUtils.BlacklistedNeverVerifies` | app/jwt_utils.py:30-32 | Once a token has a blacklist entry, it never verifies again, at any time and after any further appends. |
| `AuthUtil.GetTokenFromHeader` | app/auth_util.py:29-33 | It raises 401 exactly when the header is missing or does not start with the case-sensitive "Bearer ". |
| `AuthUtil.HeaderTokenExact` | app/auth_util.py:33 | For "Bearer " + t, where t holds no further "Bearer ", the token is exactly t. |
| `AuthUtil.HeaderTokenStopsAtNextPrefix` | app/auth_util.py:33 | When t holds "Bearer " again, only the text before its first occurrence is returned. |
| `AuthUtil.GetCurrentUser` | app/auth_util.py:13-27 | A None or 0 subject raises 401 "Invalid or expired token". A non-numeric subject escapes unhandled. For any other integer subject, the answer is the user stored under that id when that user is active, and 401 user-not-found otherwise. Every raise is a 401. |
| `AuthUtil.CurrentUserFromHeader` | app/auth_util.py:11-27 | The current_user dependency is HTTPBearer followed by get_current_user: a header HTTPBearer refuses gives its 403, and an accepted one gives exactly what get_current_user answers for the extracted credentials. A returned user is an active user of the table. It raises only 401 or 403. |
| `AuthUtil.LoginTokenAuthenticates` | app/auth_util.py:11-27 | The header "Bearer " + an access token minted for an active user authenticates as that user, until the token expires or is blacklisted. |
| `AuthUtil.BearerCredentialsOfPrefixed` | app/auth_util.py:11-14 | HTTPBearer hands get_current_user the text after "Bearer ". |
| `AuthUtil.LowerCaseSchemeSplitsDependencies` | app/auth_util.py:11-33 | A header "bearer t" passes HTTPBearer but fails get_token_from_header. |
| `AuthUtil.ExtractionsAgree` | app/auth_util.py:13-33 | When both dependencies accept a header, they extract the same token. |
| `AuthUtil.BlacklistedHeaderRejected` | app/auth_util.py:13-20 | A header whose token is blacklisted gets the 401 "Invalid or expired token" from get_current_user. |
| `AuthRoutes.Signup` | app/auth/routes.py:18-34 | A registered email gives 400 and no user is added. A first or last name holding NUL, which PostgreSQL text cannot store, fails the INSERT unhandled and adds no user. Otherwise exactly one user is added under a fresh id, storing the hash of the password and the given names, and the response is the UserResponse projection. The table constraints are kept. |
| `AuthRoutes.ActiveUser` | app/auth/routes.py:39 | The query by email and is_active finds the active user with that email, who is stored under their own id. |
| `AuthRoutes.Login` | app/auth/routes.py:37-51 | It never crashes. Every failure is the same 400 invalid-credentials error. It succeeds exactly when an active user with that email exists and the password verifies against their hash. |
| `AuthRoutes.LoginTokensCarryUser` | app/auth/routes.py:43-51 | A successful login returns an access token and a refresh token. Both decode to the user's id, expiring one hour and seven days ahead. |
| `AuthRoutes.Logout` | app/auth/routes.py:55-64 | Dependency errors pass through unchanged: an authenticated header that lacks the case-sensitive "Bearer " prefix gets 401 from get_token_from_header. It succeeds exactly when both dependencies accept the header and blacklisting does not fail. On success the presented token gets exactly one blacklist entry, and the same header is then refused with 401 at every later time. A blacklisting failure answers 400 logout-failed. No error path changes the blacklist. |
| `AuthRoutes.VerifyRefreshToken` | app/auth/routes.py:68 | The refresh check is verify_token against an empty blacklist. |
| `AuthRoutes.RefreshIgnoresBlacklist` | app/auth/routes.py:68 | A blacklisted, unexpired refresh token is refused by verify_token with the blacklist, yet the refresh check still reads its user id. |
| `AuthRoutes.Refresh` | app/auth/routes.py:66-85 | It succeeds exactly when both dependencies accept the header, the refresh token verifies to a non-zero integer subject, and the blacklist commit does not fail. A refresh token with a non-numeric subject escapes unhandled. So does a failed commit, after which reading the rolled-back current_user raises. A refresh token that is invalid or has subject 0 answers 401, issues nothing and changes nothing. On success the presented access token is blacklisted unless the timestamp conversion fails, which is swallowed. A new access token is minted for the refresh token's subject, whether or not that is the current user, and the same refresh token is echoed back. |
| `AuthRoutes.LogoutTwice` | app/auth/routes.py:55-62 | A second logout with the same header gets 401 from get_current_user, and only one entry is added. |
| `AuthRoutes.LoginThenLogoutTwice` | app/auth/routes.py:37-64 | After a successful login, a logout with the returned access token succeeds, and a second logout with it gets 401 "Invalid or expired token". |
| `AuthRoutes.RefreshInLoginSecond` | app/auth/routes.py:43-85 | After a successful login, a refresh in the same second with the login's tokens succeeds and returns the very access token it has just blacklisted, which no longer verifies. |
| `SqlLike.PercentMatchesAll` | app/blog/routes.py:82 | The pattern "%" matches every title. |
| `SqlLike.LiteralInfixPattern` | app/blog/routes.py:82 | For a term without %, _ or \, LIKE '%term%' holds exactly when the title contains the term. |
| `SqlLike.SearchIsCaseInsensitiveSubstring` | app/blog/routes.py:82 | For such a term, ILIKE '%term%' holds exactly when the lower-cased title contains the lower-cased term. |
| `SqlLike.SearchTermIsAPattern` | app/blog/routes.py:82 | The unescaped search "_" keeps the title "a", which does not contain "_". The search "%" keeps every title. |
| `BlogListing.SortByCorrect` | app/blog/routes.py:84-89 | ORDER BY returns a permutation of its rows, sorted by the column in the requested direction. |
| `BlogListing.Select` | app/blog/routes.py:80-82 | The filtered rows are exactly the rows that satisfy the condition. |
| `BlogListing.SelectCount` | app/blog/routes.py:91-92 | Over distinct rows, the count is the number of rows that satisfy the condition. |
| `BlogListing.PageCountIsCeiling` | app/blog/routes.py:105 | (total + limit - 1) // limit is the ceiling of total / limit. It is zero exactly for no rows, and the last page is never empty. |
| `BlogListing.PageItemsFacts` | app/blog/routes.py:94-96 | OFFSET/LIMIT returns rows of the listing, in order. It is empty exactly when the offset reaches the end, and otherwise holds min(limit, rows - offset) rows. |
| `BlogListing.PagesPartitionListing` | app/blog/routes.py:94-105 | Pages 1 to pages, read in turn, are the whole listing, each row exactly once. |
| `BlogListing.ListPage` | app/blog/routes.py:64-109 | The page and limit are echoed. total counts every matching blog of every user. The page count is the ceiling. Items are OFFSET/LIMIT of the sorted matches: empty exactly when the offset is past the total, and otherwise min(limit, total - offset) matching blogs, sorted by the chosen order. |
| `BlogListing.ListingIsPermutationOfMatches` | app/blog/routes.py:77-89 | The listing before pagination holds exactly the search matches, reordered. |
| `BlogListing.PageIsSliceOfListing` | app/blog/routes.py:94-96 | Item k of a page is row (page - 1) * limit + k of the full listing. |
| `BlogListing.TotalCountsMatches` | app/blog/routes.py:91-92 | On a table scan, total is the number of matching blogs, with no owner filter. |
| `BlogListing.PastLastPageIsEmpty` | app/blog/routes.py:92-105 | A page past the last one has no items, and reports the same total and page count as page 1. |
| `BlogListing.UnknownSortFallsBack` | app/blog/routes.py:84-89 | A sort_by that is not a Blog column lists by updated_at descending, whatever the order. |
| `BlogListing.LiteralSearchIsSubstring` | app/blog/routes.py:80-82 | A search term without %, _ or \ keeps exactly the titles that contain it, ignoring ASCII case. The empty term keeps all. |
| `BlogListing.OwnBlogsNewestFirst` | app/blog/routes.py:26 | The simple listing holds exactly the caller's blogs, most recently updated first. |
| `BlogRoutes.Edited` | app/blog/routes.py:45-49 | Only title, content and updated_at change. updated_at becomes now when a value changed. An update with the same values leaves the row as it was. |
| `BlogRoutes.CreateBlog` | app/blog/routes.py:15-21 | Dependency errors pass through with no change. A title the column refuses, or a title or content holding NUL, crashes and stores nothing. Otherwise exactly one blog is added under a fresh id, owned by the caller, with the title as the column stores it and the given content, and the answer is 201 with it. Every other blog is unchanged. |
| `BlogRoutes.GetOwnBlogs` | app/blog/routes.py:24-27 | An authenticated caller gets 200 with their own blogs, newest update first. |
| `BlogRoutes.OwnListingIsCallersRows` | app/blog/routes.py:26 | On a table scan, the simple listing holds each of the caller's blogs exactly once and nothing else. |
| `BlogRoutes.GetBlog` | app/blog/routes.py:30-37 | The caller's blog is answered with 200. An absent id and another user's blog both get 404 with empty results. |
| `BlogRoutes.ForeignBlogLooksMissing` | app/blog/routes.py:33-35 | Another user's blog gets the same answer as the table without that row, and as an id that does not exist. |
| `BlogRoutes.GetBlogSeesOnlyOwnBlogs` | app/blog/routes.py:33-37 | get_blog's answer depends only on the caller's own row for that id. |
| `BlogRoutes.UpdateBlog` | app/blog/routes.py:39-50 | An absent or foreign id gives 404 and no change. A title the column refuses, or a title or content holding NUL, crashes and changes nothing. Otherwise the caller's blog gets the new title as the column stores it and the new content, and no other blog changes. |
| `BlogRoutes.DeleteBlog` | app/blog/routes.py:53-60 | Exactly the caller's blog is removed and the answer is 204. An absent or foreign id gives 404 and no change. |
| `BlogRoutes.PageJson` | app/blog/routes.py:99-106 | The results object has exactly the keys items, page, limit, total and pages. |
| `BlogRoutes.GetBlogsPage` | app/blog/routes.py:64-109 | The paginated listing needs no authentication. It crashes exactly when the search term holds NUL or the offset (page - 1) * limit exceeds PostgreSQL's bigint range. Otherwise it answers 200 with the page in the envelope. |
| `BlogRoutes.CreateThenGet` | app/blog/routes.py:15-37 | After a create, get_blog for the new id answers 200 with the blog that was created. |
| `BlogRoutes.DeleteThenGet` | app/blog/routes.py:30-60 | After a delete, get_blog answers 404 for that id, and so does a second delete. |

## Left out

- app/llm/routes.py (the outbound LLM call) is not part of this model. Neither is the
  plumbing in app/database.py, app/db_test.py and app/main.py (engine setup, the probe script,
  table creation, router wiring).
- Cryptography:
  - HS256 signing is replaced by a deterministic checksum codec. Only the round trip, the
    signature check and the expiry check are modelled.
  - Forged tokens and key secrecy are not modelled.
  - `hash_password`/`verify_password` (app.security is not part of this model) are replaced by
    a tagging function with the two facts in `Passwords.VerifyHashed`.
- Time:
  - Clocks are integer seconds passed in as `now`.
  - The mix of `utcnow` and the local-time `fromtimestamp` in app/jwt_utils.py is not modelled.
    Neither are timezones or the ISO rendering of datetimes (timestamps are JSON integers).
- Python `int()` also accepts surrounding whitespace, a leading '+', '_' between digits and
  non-ASCII Unicode decimal digits. The model rejects those forms. Subjects minted by the service
  never contain them.
- The `HTTPBearer` behaviour is that of FastAPI 0.115. A missing header, or one without both
  a scheme and credentials, gives 403 "Not authenticated". A scheme that is not "bearer",
  compared case-insensitively, gives 403 "Invalid authentication credentials". The repository
  pins no FastAPI version.
- Request-body validation (422 answers) and EmailStr normalisation of emails are not modelled.
- The 204 answer of delete_blog is modelled with the envelope the handler builds. What the HTTP
  server does with a body on a 204 is not.
- Concurrency and transaction isolation, such as racing logouts or blacklist inserts, are left
  to the database.
- `BlogListing.EffectiveSort` uses the seven Blog columns as the allow-list. Python's `hasattr`
  also accepts non-column attributes of the class, which are not modelled.
- Sorting:
  - Text columns sort by character code (a binary collation).
  - ILIKE lowers ASCII letters only.
  - Ties are ordered by the scan order; the contracts promise only what ORDER BY promises.
- The users' created_at/updated_at columns are not modelled; no handler reads them.
- `JwtUtils.BlacklistToken`, `AuthRoutes.Logout`, `AuthRoutes.Refresh`: a failure inside
  blacklist_token after decoding is the parameter `fault`. It is either the timestamp
  conversion or the commit. What makes the commit fail (a lost connection, a constraint of the
  undeclared blacklist table) is not modelled. That a failed commit makes the later read of
  `current_user` in refresh raise follows SQLAlchemy's session semantics.
- `BlogRoutes.CreateBlog`: when the INSERT fails, the model promises only that the blog id
  counter does not go back. Whether PostgreSQL has already drawn a value from the serial
  sequence depends on where the failure happens, and is not modelled.
- NUL characters: emails are validated as EmailStr and passwords are stored hashed, so only the
  names, blog titles and contents, and the search term can bring a NUL to the database. The
  other string columns are not checked for it.
