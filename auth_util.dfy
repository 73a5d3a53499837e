/**
 * app/auth_util.py: the `get_current_user` dependency and the
 * `get_token_from_header` dependency, together with fastapi's HTTPBearer
 * scheme that supplies `credentials` to get_current_user.
 */
module AuthUtil {
  import opened Wrappers
  import opened Envelope
  import opened Strings
  import opened Jwt
  import opened Database
  import opened JwtUtils
  import Numerals

  const BEARER_PREFIX := "Bearer "

  const INVALID_OR_EXPIRED := HttpError(HTTP_401_UNAUTHORIZED, JStr("Invalid or expired token"))
  const USER_NOT_FOUND := HttpError(HTTP_401_UNAUTHORIZED, JStr("User not found"))
  const HEADER_MISSING_OR_INVALID := HttpError(401, JStr(Text(AuthorizationHeaderMissingOrInvalid)))
  const NOT_AUTHENTICATED := HttpError(HTTP_403_FORBIDDEN, JStr("Not authenticated"))
  const BAD_SCHEME := HttpError(HTTP_403_FORBIDDEN, JStr("Invalid authentication credentials"))

  /**
   * get_token_from_header: a missing header, or one that does not start
   * with the case-sensitive "Bearer ", is a 401; otherwise the token is the
   * second piece of `header.split("Bearer ")`.
   */
  function GetTokenFromHeader(header: Option<string>): (r: Result<string, HttpError>)
    ensures r.Err? <==> header.None? || !StartsWith(header.value, BEARER_PREFIX)
    ensures r.Err? ==> r.error == HEADER_MISSING_OR_INVALID
  {
    if header.None? || header.value == "" || !StartsWith(header.value, BEARER_PREFIX) then
      Err(HEADER_MISSING_OR_INVALID)
    else
      Ok(Split(header.value, BEARER_PREFIX)[1])
  }

  /**
   * fastapi's HTTPBearer: the header is split at its first space; a missing
   * header or an empty part is a 403 "Not authenticated", a scheme other
   * than "bearer" in any letter case a 403 "Invalid authentication
   * credentials"; otherwise the credentials are the text after the space.
   */
  function BearerCredentials(header: Option<string>): Result<string, HttpError> {
    if header.None? || header.value == "" then Err(NOT_AUTHENTICATED)
    else
      var (scheme, credentials) := Partition(header.value, ' ');
      if scheme == "" || credentials == "" then Err(NOT_AUTHENTICATED)
      else if Lower(scheme) != "bearer" then Err(BAD_SCHEME)
      else Ok(credentials)
  }

  /**
   * get_current_user(credentials, db): 401 unless the token verifies to a
   * truthy id (so a subject of 0 is refused too) that belongs to an active
   * user; a non-numeric subject escapes as an unhandled error. Only reads.
   */
  function GetCurrentUser(users: map<int, User>, blacklist: seq<BlacklistedToken>, token: string, now: int): (r: Outcome<User>)
    requires KeysMatch(users)
    ensures r.Done? ==> && VerifyToken(token, blacklist, now) == Subject(r.value.id)
                        && r.value.id in users && users[r.value.id] == r.value && r.value.isActive
    ensures r.Raised? ==> r.error.statusCode == HTTP_401_UNAUTHORIZED
    ensures r.Crashed? <==> VerifyToken(token, blacklist, now) == NonIntegerSubject
    ensures VerifyToken(token, blacklist, now) in {Rejected, Subject(0)} ==> r == Raised(INVALID_OR_EXPIRED)
    ensures forall id :: VerifyToken(token, blacklist, now) == Subject(id) && id != 0 ==>
              r == (if id in users && users[id].isActive then Done(users[id]) else Raised(USER_NOT_FOUND))
  {
    match VerifyToken(token, blacklist, now)
    case NonIntegerSubject => Crashed
    case Rejected => Raised(INVALID_OR_EXPIRED)
    case Subject(id) =>
      if id == 0 then Raised(INVALID_OR_EXPIRED)
      else if id in users && users[id].isActive then Done(users[id])
      else Raised(USER_NOT_FOUND)
  }

  /** The `current_user` dependency as a route sees it: HTTPBearer, then get_current_user. */
  function CurrentUserFromHeader(users: map<int, User>, blacklist: seq<BlacklistedToken>, header: Option<string>, now: int): (r: Outcome<User>)
    requires KeysMatch(users)
    ensures r.Done? ==> r.value.id in users && users[r.value.id] == r.value && r.value.isActive
    ensures r.Raised? ==> r.error.statusCode in {HTTP_401_UNAUTHORIZED, HTTP_403_FORBIDDEN}
    ensures BearerCredentials(header).Err? ==> r == Raised(BearerCredentials(header).error)
    ensures BearerCredentials(header).Ok? ==> r == GetCurrentUser(users, blacklist, BearerCredentials(header).value, now)
  {
    match BearerCredentials(header)
    case Err(e) => Raised(e)
    case Ok(token) => GetCurrentUser(users, blacklist, token, now)
  }

  /** "Bearer " + t gives back exactly t when t holds no further "Bearer ". */
  lemma HeaderTokenExact(t: string)
    requires !Contains(t, BEARER_PREFIX)
    ensures GetTokenFromHeader(Some(BEARER_PREFIX + t)) == Ok(t)
  {
    var h := BEARER_PREFIX + t;
    assert h[|BEARER_PREFIX|..] == t;
    SplitWithoutSeparator(t, BEARER_PREFIX);
  }

  /** When t holds "Bearer " again, only the text before its first occurrence is returned. */
  lemma HeaderTokenStopsAtNextPrefix(t: string, k: nat)
    requires OccursAt(t, BEARER_PREFIX, k)
    requires forall i :: 0 <= i < k ==> !OccursAt(t, BEARER_PREFIX, i)
    ensures GetTokenFromHeader(Some(BEARER_PREFIX + t)) == Ok(t[..k])
  {
    var h := BEARER_PREFIX + t;
    assert h[|BEARER_PREFIX|..] == t;
    SplitAtFirst(t, BEARER_PREFIX, k);
  }

  /** HTTPBearer hands get_current_user the text after "Bearer ". */
  lemma BearerCredentialsOfPrefixed(t: string)
    requires t != ""
    ensures BearerCredentials(Some(BEARER_PREFIX + t)) == Ok(t)
  {
    var h := BEARER_PREFIX + t;
    PartitionAtFirst(h, ' ', 6);
    assert h[..6] == "Bearer";
    assert h[7..] == t;
    assert Lower("Bearer") == "bearer";
  }

  /**
   * The two dependencies read the same header differently: HTTPBearer takes
   * the scheme in any letter case, get_token_from_header only "Bearer ".
   */
  lemma LowerCaseSchemeSplitsDependencies(t: string)
    requires t != ""
    ensures BearerCredentials(Some("bearer " + t)) == Ok(t)
    ensures GetTokenFromHeader(Some("bearer " + t)).Err?
  {
    var h := "bearer " + t;
    PartitionAtFirst(h, ' ', 6);
    assert h[..6] == "bearer";
    assert h[7..] == t;
    assert Lower("bearer") == "bearer";
    assert h[..7] != BEARER_PREFIX by { assert h[0] != BEARER_PREFIX[0]; }
  }

  /**
   * On any request where get_current_user accepts the header and
   * get_token_from_header accepts it too, both extract the same token: an
   * accepted token is made of digits, '-' and '.', so it holds no space
   * and no second "Bearer ".
   */
  lemma ExtractionsAgree(users: map<int, User>, blacklist: seq<BlacklistedToken>, header: Option<string>, now: int)
    requires KeysMatch(users)
    requires CurrentUserFromHeader(users, blacklist, header, now).Done?
    requires GetTokenFromHeader(header).Ok?
    ensures BearerCredentials(header).Ok?
    ensures GetTokenFromHeader(header).value == BearerCredentials(header).value
  {
    var h := header.value;
    var t := h[|BEARER_PREFIX|..];
    assert h == BEARER_PREFIX + t;
    var cred := BearerCredentials(header).value;
    assert VerifyToken(cred, blacklist, now).Subject?;
    NumericTokenChars(cred, now);
    assert ' ' !in cred;
    assert t != "" by {
      PartitionAtFirst(h, ' ', 6);
    }
    BearerCredentialsOfPrefixed(t);
    assert cred == t;
    assert !Contains(t, BEARER_PREFIX);
    HeaderTokenExact(t);
  }

  /** A header whose token is blacklisted never authenticates again. */
  lemma BlacklistedHeaderRejected(users: map<int, User>, blacklist: seq<BlacklistedToken>, header: Option<string>, now: int)
    requires KeysMatch(users)
    requires BearerCredentials(header).Ok? && Blacklisted(blacklist, BearerCredentials(header).value)
    ensures CurrentUserFromHeader(users, blacklist, header, now) == Raised(INVALID_OR_EXPIRED)
  {
  }

  /**
   * A login's access token authenticates its user: presented as
   * "Bearer " + token before it expires and while it is not blacklisted,
   * the current_user dependency yields that user.
   */
  lemma LoginTokenAuthenticates(users: map<int, User>, blacklist: seq<BlacklistedToken>, u: User,
                                issuedAt: int, now: int)
    requires KeysMatch(users)
    requires u.id in users && users[u.id] == u && u.isActive && u.id != 0
    requires now < issuedAt + ACCESS_TOKEN_EXPIRE
    requires !Blacklisted(blacklist, CreateAccessToken(u.id, issuedAt))
    ensures CurrentUserFromHeader(users, blacklist, Some(BEARER_PREFIX + CreateAccessToken(u.id, issuedAt)), now) == Done(u)
  {
    var token := CreateAccessToken(u.id, issuedAt);
    FreshTokenVerifies(u.id, issuedAt, ACCESS_TOKEN_EXPIRE, blacklist, now);
    assert token != "" by {
      assert |Encode(Claims(Numerals.IntToString(u.id), issuedAt + ACCESS_TOKEN_EXPIRE))| > 0;
    }
    BearerCredentialsOfPrefixed(token);
  }
}
