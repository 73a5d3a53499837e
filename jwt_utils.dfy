/**
 * app/jwt_utils.py: minting access and refresh tokens, verifying a token
 * against the blacklist, and blacklisting a token.
 *
 * The clock (`datetime.utcnow()`) is the parameter `now`, in seconds.
 */
module JwtUtils {
  import opened Wrappers
  import opened Numerals
  import opened Jwt
  import opened Database

  const ACCESS_TOKEN_EXPIRE := 3600
  const REFRESH_TOKEN_EXPIRE := 7 * 24 * 3600

  /** Both kinds of token carry the same claims: the subject str(user_id) and an expiry. */
  function CreateToken(userId: int, now: int, lifetime: int): string {
    Encode(Claims(IntToString(userId), now + lifetime))
  }

  function CreateAccessToken(userId: int, now: int): string {
    CreateToken(userId, now, ACCESS_TOKEN_EXPIRE)
  }

  function CreateRefreshToken(userId: int, now: int): string {
    CreateToken(userId, now, REFRESH_TOKEN_EXPIRE)
  }

  /**
   * What verify_token yields: None, the integer subject, or the ValueError
   * that `int(payload.get("sub"))` raises for a non-numeric subject, which
   * verify_token does not catch.
   */
  datatype Verified = Rejected | Subject(id: int) | NonIntegerSubject

  predicate Blacklisted(blacklist: seq<BlacklistedToken>, token: string) {
    exists i :: 0 <= i < |blacklist| && blacklist[i].token == token
  }

  /** The integer in a decoded subject, as `int(...)` reads it. */
  function SubjectOf(c: Claims): Verified {
    match ParseInt(c.sub)
    case Some(id) => Subject(id)
    case None => NonIntegerSubject
  }

  /** verify_token(token, db). */
  function VerifyToken(token: string, blacklist: seq<BlacklistedToken>, now: int): (v: Verified)
    ensures Blacklisted(blacklist, token) ==> v == Rejected
    ensures Decode(token, now).Err? ==> v == Rejected
    ensures v.Subject? ==> Decode(token, now).Ok? && ParseInt(Decode(token, now).value.sub) == Some(v.id)
  {
    match Decode(token, now)
    case Err(_) => Rejected
    case Ok(claims) => if Blacklisted(blacklist, token) then Rejected else SubjectOf(claims)
  }

  /** The row blacklist_token inserts for `token`, if it decodes at `now`. */
  function BlacklistEntry(token: string, now: int): Option<BlacklistedToken> {
    match Decode(token, now)
    case Ok(claims) => Some(BlacklistedToken(token, claims.exp))
    case Err(_) => None
  }

  /**
   * An exception inside blacklist_token after decoding, which it swallows.
   * `TimestampFault`: datetime.fromtimestamp refuses the exp claim, before
   * anything is sent to the database. `CommitFault`: the INSERT fails at
   * commit, and the session rolls back and expires the objects it had
   * loaded.
   */
  datatype StoreFault = NoFault | TimestampFault | CommitFault

  /**
   * blacklist_token(token, db): an undecodable token, or a fault on the
   * way, returns None and stores nothing. The function never looks for an
   * existing entry: blacklisting the same token twice stores it twice.
   */
  method BlacklistToken(db: Store, token: string, now: int, fault: StoreFault) returns (ok: bool)
    modifies db`blacklist
    ensures ok <==> Decode(token, now).Ok? && fault == NoFault
    ensures db.blacklist == if ok then old(db.blacklist) + [BlacklistEntry(token, now).value] else old(db.blacklist)
  {
    var entry := BlacklistEntry(token, now);
    if entry.None? || fault != NoFault {
      return false;
    }
    db.blacklist := db.blacklist + [entry.value];
    return true;
  }

  /** The token minted for a user decodes to str(user_id) and the expiry issue time + lifetime. */
  lemma DecodeCreated(userId: int, issuedAt: int, lifetime: int, now: int)
    ensures Decode(CreateToken(userId, issuedAt, lifetime), now)
         == if issuedAt + lifetime <= now then Err(Expired)
            else Ok(Claims(IntToString(userId), issuedAt + lifetime))
  {
    IntToStringChars(userId);
    assert Jwt.SEPARATOR !in IntToString(userId);
    DecodeEncode(Claims(IntToString(userId), issuedAt + lifetime), now);
  }

  /** An access token lives exactly 3600 s and a refresh token exactly 604800 s. */
  lemma TokenLifetimes(userId: int, issuedAt: int, now: int)
    ensures Decode(CreateAccessToken(userId, issuedAt), now).Ok? <==> now < issuedAt + 3600
    ensures Decode(CreateRefreshToken(userId, issuedAt), now).Ok? <==> now < issuedAt + 604800
    ensures Decode(CreateAccessToken(userId, issuedAt), now).Ok? ==>
              Decode(CreateAccessToken(userId, issuedAt), now).value.exp == issuedAt + 3600
    ensures Decode(CreateRefreshToken(userId, issuedAt), now).Ok? ==>
              Decode(CreateRefreshToken(userId, issuedAt), now).value.exp == issuedAt + 604800
  {
    DecodeCreated(userId, issuedAt, ACCESS_TOKEN_EXPIRE, now);
    DecodeCreated(userId, issuedAt, REFRESH_TOKEN_EXPIRE, now);
  }

  /**
   * A freshly minted, unexpired token that is not blacklisted verifies to
   * the user id it was minted for (int(str(user_id)) == user_id).
   */
  lemma FreshTokenVerifies(userId: int, issuedAt: int, lifetime: int, blacklist: seq<BlacklistedToken>, now: int)
    requires now < issuedAt + lifetime
    requires !Blacklisted(blacklist, CreateToken(userId, issuedAt, lifetime))
    ensures VerifyToken(CreateToken(userId, issuedAt, lifetime), blacklist, now) == Subject(userId)
  {
    DecodeCreated(userId, issuedAt, lifetime, now);
    IntRoundTrip(userId);
  }

  /** An expired token never verifies, whatever the blacklist holds. */
  lemma ExpiredTokenRejected(userId: int, issuedAt: int, lifetime: int, blacklist: seq<BlacklistedToken>, now: int)
    requires issuedAt + lifetime <= now
    ensures VerifyToken(CreateToken(userId, issuedAt, lifetime), blacklist, now) == Rejected
  {
    DecodeCreated(userId, issuedAt, lifetime, now);
  }

  /**
   * Access and refresh tokens are indistinguishable: a refresh token is the
   * very string of an access token minted 604800 - 3600 s later, so
   * verify_token accepts either kind wherever it accepts one.
   */
  lemma AccessAndRefreshIndistinguishable(userId: int, issuedAt: int)
    ensures CreateRefreshToken(userId, issuedAt)
         == CreateAccessToken(userId, issuedAt + REFRESH_TOKEN_EXPIRE - ACCESS_TOKEN_EXPIRE)
  {
  }

  /**
   * Blacklisting is permanent: once an entry for a token is stored, that
   * token never verifies again, at any later time and after any further
   * appends to the blacklist.
   */
  lemma BlacklistedNeverVerifies(blacklist: seq<BlacklistedToken>, more: seq<BlacklistedToken>, token: string, now: int)
    requires Blacklisted(blacklist, token)
    ensures VerifyToken(token, blacklist + more, now) == Rejected
  {
    var i :| 0 <= i < |blacklist| && blacklist[i].token == token;
    assert (blacklist + more)[i].token == token;
  }
}
