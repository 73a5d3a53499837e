/**
 * app/auth/routes.py: signup, login, logout and refresh.
 *
 * The route imports `verify_access_token` and `verify_refresh_token`, which
 * app/jwt_utils.py does not define. The model takes the access check to be
 * `verify_token` (with the blacklist) and the refresh check to be a decode
 * without the blacklist, since the route passes it no session.
 */
module AuthRoutes {
  import opened Wrappers
  import opened Envelope
  import opened Numerals
  import opened Jwt
  import opened Passwords
  import opened Database
  import opened JwtUtils
  import opened AuthUtil

  const EMAIL_EXISTS := HttpError(HTTP_400_BAD_REQUEST, JStr(Text(EmailAlreadyExists)))
  const INVALID_CREDENTIALS := HttpError(HTTP_400_BAD_REQUEST, JStr(Text(InvalidCredentials)))
  const INVALID_TOKEN := HttpError(HTTP_401_UNAUTHORIZED, JStr(Text(InvalidToken)))
  const LOGOUT_FAILED := HttpError(HTTP_400_BAD_REQUEST, JStr(Text(LogoutFailed)))

  /** The user signup creates: the given names, the hashed password, active by default. */
  function NewUser(id: int, email: string, password: string, firstName: string, lastName: string): User {
    User(id, email, HashPassword(password), firstName, lastName, true)
  }

  /**
   * signup: an email already in the table (active or not) is a 400 and adds
   * nothing; a name the database cannot store makes the INSERT fail,
   * unhandled; otherwise exactly one user is added under the next id and the
   * response is its UserResponse projection.
   */
  method Signup(db: Store, email: string, password: string, firstName: string, lastName: string)
    returns (o: Outcome<Response>)
    requires db.Valid()
    modifies db`users, db`nextUserId
    ensures db.Valid()
    ensures EmailTaken(old(db.users), email) ==>
              o == Raised(EMAIL_EXISTS) && db.users == old(db.users) && db.nextUserId == old(db.nextUserId)
    ensures !EmailTaken(old(db.users), email) && !(Storable(firstName) && Storable(lastName)) ==>
              o == Crashed && db.users == old(db.users) && db.nextUserId >= old(db.nextUserId)
    ensures !EmailTaken(old(db.users), email) && Storable(firstName) && Storable(lastName) ==>
              var u := NewUser(old(db.nextUserId), email, password, firstName, lastName);
              && old(db.nextUserId) !in old(db.users)
              && db.users == old(db.users)[u.id := u]
              && db.nextUserId == old(db.nextUserId) + 1
              && o == Done(Response(HTTP_200_OK, UserResponseJson(u)))
  {
    if EmailTaken(db.users, email) {
      return Raised(EMAIL_EXISTS);
    }
    if !(Storable(firstName) && Storable(lastName)) {
      return Crashed;
    }
    var u := NewUser(db.nextUserId, email, password, firstName, lastName);
    db.users := db.users[u.id := u];
    db.nextUserId := db.nextUserId + 1;
    return Done(Response(HTTP_200_OK, UserResponseJson(u)));
  }

  /** The active user with this email, if any (the email column is unique). */
  predicate HasActiveUser(users: map<int, User>, email: string) {
    exists id :: id in users && users[id].email == email && users[id].isActive
  }

  function ActiveUser(users: map<int, User>, email: string): (u: User)
    requires KeysMatch(users) && EmailsUnique(users) && HasActiveUser(users, email)
    ensures u.id in users && users[u.id] == u && u.email == email && u.isActive
  {
    var id :| id in users && users[id].email == email && users[id].isActive;
    users[id]
  }

  /** The body login and refresh return inside the envelope. */
  function TokenPayload(accessToken: string, refreshToken: string, user: User): Json {
    JObj(map["access_token" := JStr(accessToken), "refresh_token" := JStr(refreshToken),
             "user" := UserResponseJson(user)])
  }

  /**
   * login: one undifferentiated 400 for an unknown email, an inactive user
   * or a wrong password; otherwise an access and a refresh token for the
   * user, minted at `now`. Only reads the store.
   */
  function Login(users: map<int, User>, email: string, password: string, now: int): (o: Outcome<Response>)
    requires KeysMatch(users) && EmailsUnique(users)
    ensures !o.Crashed?
    ensures o.Raised? ==> o.error == INVALID_CREDENTIALS
    ensures o.Done? <==> HasActiveUser(users, email) && VerifyPassword(password, ActiveUser(users, email).hashedPassword)
  {
    if !HasActiveUser(users, email) then Raised(INVALID_CREDENTIALS)
    else
      var u := ActiveUser(users, email);
      if !VerifyPassword(password, u.hashedPassword) then Raised(INVALID_CREDENTIALS)
      else Done(ResponseSchema(TokenPayload(CreateAccessToken(u.id, now), CreateRefreshToken(u.id, now), u),
                               Text(LoginSuccess), HTTP_200_OK))
  }

  /** How a client reads the two tokens out of a login or refresh response. */
  function ReadTokens(r: Response): Option<(string, string)> {
    match ReadEnvelope(r)
    case None => None
    case Some(e) =>
      if e.results.JObj? && "access_token" in e.results.fields && "refresh_token" in e.results.fields
         && e.results.fields["access_token"].JStr? && e.results.fields["refresh_token"].JStr?
      then Some((e.results.fields["access_token"].s, e.results.fields["refresh_token"].s))
      else None
  }

  /**
   * A successful login hands out an access token and a refresh token that
   * both carry the user's id: each decodes, at the login time, to the
   * subject str(id), which reads back as id, with expiries one hour and
   * seven days ahead.
   */
  lemma LoginTokensCarryUser(users: map<int, User>, email: string, password: string, now: int)
    requires KeysMatch(users) && EmailsUnique(users)
    requires Login(users, email, password, now).Done?
    ensures var u := ActiveUser(users, email);
            var tokens := ReadTokens(Login(users, email, password, now).value);
            && tokens.Some?
            && Decode(tokens.value.0, now) == Ok(Claims(IntToString(u.id), now + ACCESS_TOKEN_EXPIRE))
            && Decode(tokens.value.1, now) == Ok(Claims(IntToString(u.id), now + REFRESH_TOKEN_EXPIRE))
            && SubjectOf(Decode(tokens.value.0, now).value) == Subject(u.id)
            && SubjectOf(Decode(tokens.value.1, now).value) == Subject(u.id)
  {
    var u := ActiveUser(users, email);
    DecodeCreated(u.id, now, ACCESS_TOKEN_EXPIRE, now);
    DecodeCreated(u.id, now, REFRESH_TOKEN_EXPIRE, now);
    IntRoundTrip(u.id);
  }

  /**
   * logout: after the current_user and token dependencies, the token is
   * checked again with the blacklist and then blacklisted. A `fault` inside
   * blacklist_token makes it return None, and the route answers 400.
   */
  method Logout(db: Store, header: Option<string>, now: int, fault: StoreFault) returns (o: Outcome<Response>)
    requires db.Valid()
    modifies db`blacklist
    ensures db.Valid()
    ensures !CurrentUserFromHeader(old(db.users), old(db.blacklist), header, now).Done? ==>
              o == CurrentUserFromHeader(old(db.users), old(db.blacklist), header, now).Propagate()
    ensures o.Done? <==> (CurrentUserFromHeader(old(db.users), old(db.blacklist), header, now).Done?
                          && GetTokenFromHeader(header).Ok? && fault == NoFault)
    ensures o.Done? ==>
              && o.value == ResponseSchema(JObj(map[]), Text(LogoutSuccess), HTTP_200_OK)
              && Decode(GetTokenFromHeader(header).value, now).Ok?
              && db.blacklist == old(db.blacklist) + [BlacklistEntry(GetTokenFromHeader(header).value, now).value]
              && forall later :: CurrentUserFromHeader(db.users, db.blacklist, header, later) == Raised(INVALID_OR_EXPIRED)
    ensures (CurrentUserFromHeader(old(db.users), old(db.blacklist), header, now).Done? && GetTokenFromHeader(header).Err?) ==>
              o == Raised(HEADER_MISSING_OR_INVALID)
    ensures !o.Done? ==> db.blacklist == old(db.blacklist)
    ensures o == Raised(LOGOUT_FAILED) <==> (CurrentUserFromHeader(old(db.users), old(db.blacklist), header, now).Done?
                                            && GetTokenFromHeader(header).Ok? && fault != NoFault)
  {
    var current := CurrentUserFromHeader(db.users, db.blacklist, header, now);
    if !current.Done? {
      return current.Propagate();
    }
    var fromHeader := GetTokenFromHeader(header);
    if fromHeader.Err? {
      return Raised(fromHeader.error);
    }
    var token := fromHeader.value;
    ExtractionsAgree(db.users, db.blacklist, header, now);
    var userId := VerifyToken(token, db.blacklist, now);
    if userId.NonIntegerSubject? {
      return Crashed;
    }
    if userId.Rejected? || userId.id == 0 {
      return Raised(INVALID_TOKEN);
    }
    ghost var before := db.blacklist;
    var ok := BlacklistToken(db, token, now, fault);
    if !ok {
      return Raised(LOGOUT_FAILED);
    }
    assert db.blacklist[|before|].token == token;
    forall later ensures CurrentUserFromHeader(db.users, db.blacklist, header, later) == Raised(INVALID_OR_EXPIRED) {
      BlacklistedHeaderRejected(db.users, db.blacklist, header, later);
    }
    return Done(ResponseSchema(JObj(map[]), Text(LogoutSuccess), HTTP_200_OK));
  }

  /**
   * The refresh check: decode the token and read its subject, without
   * consulting the blacklist.
   */
  function VerifyRefreshToken(token: string, now: int): (v: Verified)
    ensures v == VerifyToken(token, [], now)
  {
    match Decode(token, now)
    case Err(_) => Rejected
    case Ok(claims) => SubjectOf(claims)
  }

  /**
   * A refresh token stays usable after it has been blacklisted: verify_token
   * refuses it, the refresh check still reads its user id.
   */
  lemma RefreshIgnoresBlacklist(userId: int, issuedAt: int, blacklist: seq<BlacklistedToken>, now: int)
    requires now < issuedAt + REFRESH_TOKEN_EXPIRE
    requires Blacklisted(blacklist, CreateRefreshToken(userId, issuedAt))
    ensures VerifyToken(CreateRefreshToken(userId, issuedAt), blacklist, now) == Rejected
    ensures VerifyRefreshToken(CreateRefreshToken(userId, issuedAt), now) == Subject(userId)
  {
    FreshTokenVerifies(userId, issuedAt, REFRESH_TOKEN_EXPIRE, [], now);
  }

  /**
   * refresh: with a current user and a header token, a refresh token that
   * does not verify to a truthy id is a 401 and changes nothing; otherwise
   * the presented access token is blacklisted on a best-effort basis and a
   * new access token is minted for the refresh token's subject, whoever the
   * current user is; the refresh token is handed back unchanged. A failed
   * commit inside blacklist_token leaves the session rolled back, so reading
   * the expired current_user for the response raises, unhandled.
   */
  method Refresh(db: Store, header: Option<string>, refreshToken: string, now: int, fault: StoreFault)
    returns (o: Outcome<Response>)
    requires db.Valid()
    modifies db`blacklist
    ensures db.Valid()
    ensures !CurrentUserFromHeader(old(db.users), old(db.blacklist), header, now).Done? ==>
              o == CurrentUserFromHeader(old(db.users), old(db.blacklist), header, now).Propagate()
    ensures (CurrentUserFromHeader(old(db.users), old(db.blacklist), header, now).Done? && GetTokenFromHeader(header).Err?) ==>
              o == Raised(HEADER_MISSING_OR_INVALID)
    ensures (CurrentUserFromHeader(old(db.users), old(db.blacklist), header, now).Done? && GetTokenFromHeader(header).Ok?
             && VerifyRefreshToken(refreshToken, now) in {Rejected, Subject(0)}) ==>
              o == Raised(INVALID_TOKEN)
    ensures (CurrentUserFromHeader(old(db.users), old(db.blacklist), header, now).Done? && GetTokenFromHeader(header).Ok?
             && VerifyRefreshToken(refreshToken, now) == NonIntegerSubject) ==>
              o == Crashed
    ensures (CurrentUserFromHeader(old(db.users), old(db.blacklist), header, now).Done? && GetTokenFromHeader(header).Ok?
             && VerifyRefreshToken(refreshToken, now).Subject? && VerifyRefreshToken(refreshToken, now).id != 0
             && fault == CommitFault) ==>
              o == Crashed
    ensures o.Done? <==> (CurrentUserFromHeader(old(db.users), old(db.blacklist), header, now).Done? && GetTokenFromHeader(header).Ok?
                          && VerifyRefreshToken(refreshToken, now).Subject? && VerifyRefreshToken(refreshToken, now).id != 0
                          && fault != CommitFault)
    ensures !o.Done? ==> db.blacklist == old(db.blacklist)
    ensures o.Done? ==>
              var current := CurrentUserFromHeader(old(db.users), old(db.blacklist), header, now);
              var presented := GetTokenFromHeader(header);
              var subject := VerifyRefreshToken(refreshToken, now);
              && current.Done? && presented.Ok? && subject.Subject? && subject.id != 0
              && o.value == ResponseSchema(TokenPayload(CreateAccessToken(subject.id, now), refreshToken, current.value),
                                           Text(LoginSuccess), HTTP_200_OK)
              && Decode(presented.value, now).Ok?
              && db.blacklist == old(db.blacklist) +
                   (if fault == NoFault then [BlacklistEntry(presented.value, now).value] else [])
  {
    var current := CurrentUserFromHeader(db.users, db.blacklist, header, now);
    if !current.Done? {
      return current.Propagate();
    }
    var fromHeader := GetTokenFromHeader(header);
    if fromHeader.Err? {
      return Raised(fromHeader.error);
    }
    var accessToken := fromHeader.value;
    ExtractionsAgree(db.users, db.blacklist, header, now);
    assert VerifyToken(accessToken, db.blacklist, now).Subject?;
    assert Decode(accessToken, now).Ok?;
    var userId := VerifyRefreshToken(refreshToken, now);
    if userId.NonIntegerSubject? {
      return Crashed;
    }
    if userId.Rejected? || userId.id == 0 {
      return Raised(INVALID_TOKEN);
    }
    var _ := BlacklistToken(db, accessToken, now, fault);
    if fault == CommitFault {
      return Crashed;
    }
    var newAccessToken := CreateAccessToken(userId.id, now);
    return Done(ResponseSchema(TokenPayload(newAccessToken, refreshToken, current.value), Text(LoginSuccess), HTTP_200_OK));
  }

  /**
   * Logging out twice with the same header: the second call is refused with
   * 401 by the current_user dependency and blacklists nothing.
   */
  method LogoutTwice(db: Store, header: Option<string>, now: int, later: int)
    returns (first: Outcome<Response>, second: Outcome<Response>)
    requires db.Valid()
    modifies db`blacklist
    ensures first.Done? ==> second == Raised(INVALID_OR_EXPIRED) && |db.blacklist| == |old(db.blacklist)| + 1
  {
    first := Logout(db, header, now, NoFault);
    second := Logout(db, header, later, NoFault);
  }

  /**
   * Log in, then log out twice with the access token: the first logout
   * succeeds and the second is refused with 401 by the current_user
   * dependency.
   */
  method LoginThenLogoutTwice(db: Store, email: string, password: string, now: int, later: int)
    returns (login: Outcome<Response>, first: Outcome<Response>, second: Outcome<Response>)
    requires db.Valid()
    requires Login(db.users, email, password, now).Done?
    requires !Blacklisted(db.blacklist, CreateAccessToken(ActiveUser(db.users, email).id, now))
    modifies db`blacklist
    ensures login.Done? && first.Done? && second == Raised(INVALID_OR_EXPIRED)
    ensures |db.blacklist| == |old(db.blacklist)| + 1
  {
    login := Login(db.users, email, password, now);
    var u := ActiveUser(db.users, email);
    LoginTokensCarryUser(db.users, email, password, now);
    var accessToken := ReadTokens(login.value).value.0;
    assert accessToken == CreateAccessToken(u.id, now) by {
      DecodeCreated(u.id, now, ACCESS_TOKEN_EXPIRE, now);
    }
    var header := Some(BEARER_PREFIX + accessToken);
    LoginTokenAuthenticates(db.users, db.blacklist, u, now, now);
    HeaderPrefixed(accessToken);
    first := Logout(db, header, now, NoFault);
    second := Logout(db, header, later, NoFault);
  }

  lemma HeaderPrefixed(t: string)
    ensures GetTokenFromHeader(Some(BEARER_PREFIX + t)).Ok?
  {
    assert (BEARER_PREFIX + t)[..|BEARER_PREFIX|] == BEARER_PREFIX;
  }

  /**
   * Tokens are a function of (subject, expiry): a refresh in the same second
   * as the login mints the very access token it has just blacklisted, so
   * the token it returns no longer verifies.
   */
  method RefreshInLoginSecond(db: Store, email: string, password: string, now: int)
    returns (login: Outcome<Response>, refresh: Outcome<Response>)
    requires db.Valid()
    requires Login(db.users, email, password, now).Done?
    requires !Blacklisted(db.blacklist, CreateAccessToken(ActiveUser(db.users, email).id, now))
    modifies db`blacklist
    ensures login.Done? && ReadTokens(login.value).Some? && refresh.Done?
    ensures var returned := ReadTokens(refresh.value);
              && returned.Some?
              && returned.value.0 == ReadTokens(login.value).value.0
              && VerifyToken(returned.value.0, db.blacklist, now) == Rejected
  {
    login := Login(db.users, email, password, now);
    LoginTokensCarryUser(db.users, email, password, now);
    var (accessToken, refreshToken) := ReadTokens(login.value).value;
    var u := ActiveUser(db.users, email);
    assert accessToken == CreateAccessToken(u.id, now) by {
      DecodeCreated(u.id, now, ACCESS_TOKEN_EXPIRE, now);
    }
    IntRoundTrip(u.id);
    LoginTokenAuthenticates(db.users, db.blacklist, u, now, now);
    HeaderPrefixed(accessToken);
    refresh := Refresh(db, Some(BEARER_PREFIX + accessToken), refreshToken, now, NoFault);
    var presented := GetTokenFromHeader(Some(BEARER_PREFIX + accessToken)).value;
    assert presented == accessToken by {
      ExtractionsAgree(old(db.users), old(db.blacklist), Some(BEARER_PREFIX + accessToken), now);
      BearerCredentialsOfPrefixed(accessToken);
    }
    assert db.blacklist[|old(db.blacklist)|].token == accessToken;
  }
}
